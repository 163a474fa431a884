/** The SMTP client object. The server is arbitrary: every reply, every end of file and every failed socket is havocked. */
module SmtpSession {
  import opened Bytes
  import opened SmtpProtocol
  import SmtpData

  /** `SMTP::authenticate`, the choice of mechanism: the configured one if the server lists it, else the first
      supported one of a fixed list; LOGIN when the server only spoke HELO. */
  function ChooseMechanism(caps: Option<Caps>, configured: Option<string>): (r: Option<string>)
    ensures r.Some? ==> caps.Some? && Allowed(caps.value, r.value, configured)
  {
    if caps.None? || caps.value == map[] then None
    else if "EHLO" in caps.value then
      if !("AUTH" in caps.value && caps.value["AUTH"].Methods?) then None
      else
        var names := caps.value["AUTH"].names;
        if IsSet(configured) && configured.value in names then configured
        else FirstOf(["CRAM-MD5", "LOGIN", "PLAIN", "XOAUTH2"], names)
    else if IsSet(configured) then configured
    else Some("LOGIN")
  }

  /** The choice on a list of mechanisms, spelled out. */
  lemma {:induction false} MechanismOrder(caps: Caps, configured: Option<string>, names: seq<string>)
    requires "EHLO" in caps && "AUTH" in caps && caps["AUTH"] == Methods(names)
    ensures ChooseMechanism(Some(caps), configured) ==
      if configured.Some? && configured.value != "" && configured.value != "0" && configured.value in names then configured
      else if "CRAM-MD5" in names then Some("CRAM-MD5")
      else if "LOGIN" in names then Some("LOGIN")
      else if "PLAIN" in names then Some("PLAIN")
      else if "XOAUTH2" in names then Some("XOAUTH2")
      else None
  {
    var four := ["CRAM-MD5", "LOGIN", "PLAIN", "XOAUTH2"];
    var three := ["LOGIN", "PLAIN", "XOAUTH2"];
    var two, one := ["PLAIN", "XOAUTH2"], ["XOAUTH2"];
    assert four[1..] == three && three[1..] == two && two[1..] == one && one[1..] == [];
    assert FirstOf(one, names) == if "XOAUTH2" in names then Some("XOAUTH2") else None;
    assert FirstOf(two, names) == if "PLAIN" in names then Some("PLAIN") else FirstOf(one, names);
    assert FirstOf(three, names) == if "LOGIN" in names then Some("LOGIN") else FirstOf(two, names);
  }

  /** Without an AUTH list there is no choice; a server that only spoke HELO gets the configured mechanism or LOGIN. */
  lemma {:induction false} MechanismElse(caps: Option<Caps>, configured: Option<string>)
    ensures caps.None? || caps.value == map[] ==> ChooseMechanism(caps, configured) == None
    ensures caps.Some? && "EHLO" in caps.value && "AUTH" !in caps.value ==> ChooseMechanism(caps, configured) == None
    ensures caps.Some? && caps.value != map[] && "EHLO" !in caps.value ==>
      ChooseMechanism(caps, configured) ==
      if configured.Some? && configured.value != "" && configured.value != "0" then configured else Some("LOGIN")
  {
  }

  /** A successful authentication: the mechanism is named once, credentials follow, and each step got the answer the
      mechanism asks for. */
  ghost predicate AuthDialogue(mechanism: string, oauth: Option<nat>, before: seq<Event>, trace: seq<Event>) {
    exists codes :: Succeeds(mechanism, oauth, codes) && Talked(mechanism, before, trace, codes)
  }

  /** A failed one: nothing was said, for want of a mechanism the client knows or of a token; or the last answer is not
      one the mechanism could go on with. */
  ghost predicate AuthRefused(mechanism: string, oauth: Option<nat>, before: seq<Event>, trace: seq<Event>) {
    if trace == before then
      mechanism !in {"PLAIN", "CRAM-MD5", "LOGIN", "XOAUTH2"} || (mechanism == "XOAUTH2" && oauth.None?)
    else exists codes :: Fails(mechanism, oauth, codes) && Talked(mechanism, before, trace, codes)
  }

  /** No run of codes with which the mechanism succeeds starts so. */
  ghost predicate Fails(mechanism: string, oauth: Option<nat>, codes: seq<int>) {
    forall s :: Succeeds(mechanism, oauth, s) ==> !(codes <= s)
  }

  lemma {:induction false} RefusedNow(mechanism: string, oauth: Option<nat>, before: seq<Event>, trace: seq<Event>,
                                      codes: seq<int>)
    requires Talked(mechanism, before, trace, codes) && codes != []
    requires forall s :: Succeeds(mechanism, oauth, s) && |codes| <= |s| ==> s[|codes| - 1] != codes[|codes| - 1]
    ensures AuthRefused(mechanism, oauth, before, trace)
  {
    assert trace != before;
    hide Talked, Succeeds;
    forall s | Succeeds(mechanism, oauth, s) ensures !(codes <= s) {
      assert |codes| <= |s| ==> s[|codes| - 1] != codes[|codes| - 1];
    }
    assert Fails(mechanism, oauth, codes);
  }

  function FirstOf(wanted: seq<string>, names: seq<string>): (r: Option<string>)
    ensures r.Some? ==> r.value in names && r.value in wanted
    ensures r.None? ==> forall w :: w in wanted ==> w !in names
  {
    if wanted == [] then None
    else if wanted[0] in names then Some(wanted[0])
    else FirstOf(wanted[1..], names)
  }

  /** The writes of a message as events. */
  function LineEvents(lines: seq<bytes>): (r: seq<Event>)
    ensures |r| == |lines|
    ensures forall i :: 0 <= i < |r| ==> r[i] == MessageLine(lines[i])
  {
    seq(|lines|, i requires 0 <= i < |lines| => MessageLine(lines[i]))
  }

  /** An accepted message: DATA answered with 354, its lines, and the final dot answered with 250. */
  function Delivery(go: Reply, msg: bytes, done: Reply): seq<Event> {
    [Sent(DataStart, go)] + LineEvents(SmtpData.StuffAll(SmtpData.DataLines(msg))) + [Sent(DataEnd, done)]
  }

  /** After `trace` the transaction has this sender and these recipients. */
  ghost predicate Envelope(p: Policy, trace: seq<Event>, from: bytes, rcpts: seq<bytes>) {
    Run(p, trace).Some? && Run(p, trace).value.mail == Some(from) && Run(p, trace).value.accepted == rcpts
  }

  /** Somewhere after `before`, the trace delivers the message from the sender to exactly these recipients. */
  ghost predicate Delivers(p: Policy, before: seq<Event>, trace: seq<Event>, from: bytes, rcpts: seq<bytes>, msg: bytes) {
    exists at, go: Reply, done: Reply :: DeliversAt(p, before, trace, from, rcpts, msg, at, go, done)
  }

  ghost predicate DeliversAt(p: Policy, before: seq<Event>, trace: seq<Event>, from: bytes, rcpts: seq<bytes>, msg: bytes,
                             at: seq<Event>, go: Reply, done: Reply) {
    && go.code == 354 && done.code == 250
    && before <= at && Envelope(p, at, from, rcpts) && at + Delivery(go, msg, done) <= trace
  }

  /** A message not taken: DATA was not answered with 354, or all of it was sent and the final dot not answered with 250. */
  ghost predicate Refused(msg: bytes, es: seq<Event>) {
    && es != [] && es[0].Sent? && es[0].command == DataStart
    && (es[0].reply.code == 354 ==>
          es[|es| - 1].Sent? && es[|es| - 1].reply.code != 250 && es == Delivery(es[0].reply, msg, es[|es| - 1].reply))
    && (es[0].reply.code != 354 ==> |es| == 1)
  }

  lemma {:induction false} NotStarted(msg: bytes, before: seq<Event>, trace: seq<Event>, go: Reply)
    requires trace == before + [Sent(DataStart, go)] && go.code != 354
    ensures Refused(msg, trace[|before|..])
  {
  }

  lemma {:induction false} NotFinished(msg: bytes, before: seq<Event>, trace: seq<Event>, go: Reply, done: Reply)
    requires go.code == 354 && done.code != 250
    requires trace == before + [Sent(DataStart, go)] + LineEvents(SmtpData.StuffAll(SmtpData.DataLines(msg)))
                      + [Sent(DataEnd, done)]
    ensures Refused(msg, trace[|before|..])
  {
    hide LineEvents;
    assert trace[|before|..] == Delivery(go, msg, done);
  }

  lemma {:induction false} DeliversNow(p: Policy, before: seq<Event>, trace: seq<Event>, from: bytes, rcpts: seq<bytes>,
                                       msg: bytes, go: Reply, done: Reply)
    requires go.code == 354 && done.code == 250 && Envelope(p, before, from, rcpts)
    requires trace == before + [Sent(DataStart, go)] + LineEvents(SmtpData.StuffAll(SmtpData.DataLines(msg)))
                      + [Sent(DataEnd, done)]
    ensures Delivers(p, before, trace, from, rcpts, msg)
  {
    hide Envelope, Run, LineEvents;
    assert trace == before + Delivery(go, msg, done);
    assert DeliversAt(p, before, trace, from, rcpts, msg, before, go, done);
  }

  lemma {:induction false} DeliversLater(p: Policy, before: seq<Event>, trace: seq<Event>, before': seq<Event>,
                                         trace': seq<Event>, from: bytes, rcpts: seq<bytes>, msg: bytes)
    requires Delivers(p, before, trace, from, rcpts, msg) && before' <= before && trace <= trace'
    ensures Delivers(p, before', trace', from, rcpts, msg)
  {
    var at, go: Reply, done: Reply :| DeliversAt(p, before, trace, from, rcpts, msg, at, go, done);
    assert DeliversAt(p, before', trace', from, rcpts, msg, at, go, done);
  }

  predicate Greets(e: Event) { e.Sent? && (e.command.Ehlo? || e.command.Helo?) }

  /** The trace went on without a hello. */
  ghost predicate NoHelloSince(before: seq<Event>, trace: seq<Event>) {
    before <= trace && forall i :: |before| <= i < |trace| ==> !Greets(trace[i])
  }

  /** Every hello accepted since then announced these capabilities. */
  ghost predicate HelloSince(before: seq<Event>, trace: seq<Event>, caps: Option<Caps>) {
    before <= trace && forall i, c: Caps :: |before| <= i < |trace| && IsHello(trace[i], c) ==> caps == Some(c)
  }

  lemma {:induction false} HelloAfterRefusal(before: seq<Event>, middle: seq<Event>, trace: seq<Event>, caps: Option<Caps>)
    requires HelloSince(before, middle, None) && HelloSince(middle, trace, caps)
    ensures HelloSince(before, trace, caps)
  {
    assert forall k :: 0 <= k < |middle| ==> middle[k] == trace[k];
  }

  /** The dialogue so far, with the codes answered. */
  ghost predicate Talked(mechanism: string, before: seq<Event>, trace: seq<Event>, codes: seq<int>) {
    && before < trace && |trace| == |before| + |codes|
    && (forall i :: |before| <= i < |trace| ==> trace[i].Sent? && trace[i].reply.code == codes[i - |before|])
    && trace[|before|].command == Auth(mechanism)
    && (forall i :: |before| < i < |trace| ==> trace[i].command == Credentials)
  }

  lemma {:induction false} TalkStarts(mechanism: string, before: seq<Event>, trace: seq<Event>, r: Reply)
    requires trace == before + [Sent(Auth(mechanism), r)]
    ensures Talked(mechanism, before, trace, [r.code])
  {
  }

  lemma {:induction false} TalkGoesOn(mechanism: string, before: seq<Event>, t: seq<Event>, codes: seq<int>,
                                      trace: seq<Event>, r: Reply)
    requires Talked(mechanism, before, t, codes) && trace == t + [Sent(Credentials, r)]
    ensures Talked(mechanism, before, trace, codes + [r.code])
  {
  }

  /** The codes with which a mechanism succeeds; a token longer than 497 bytes is sent in parts. */
  predicate Succeeds(mechanism: string, oauth: Option<nat>, codes: seq<int>) {
    || (mechanism == "PLAIN" && codes == [334, 235])
    || (mechanism == "CRAM-MD5" && codes == [334, 235])
    || (mechanism == "LOGIN" && codes == [334, 334, 235])
    || (mechanism == "XOAUTH2" && oauth.Some? && oauth.value <= 497 && codes == [235])
    || (mechanism == "XOAUTH2" && oauth.Some? && oauth.value > 497 && (codes == [334, 235] || codes == [334, 334, 235]))
  }

  /** EHLO first; HELO only if EHLO was refused and the server is not shutting down; success is a 250 to the last. */
  ghost predicate Greeting(host: bytes, es: seq<Event>, ok: bool) {
    && 1 <= |es| <= 2 && (forall i :: 0 <= i < |es| ==> es[i].Sent?)
    && es[0].command == Ehlo(host)
    && (|es| == 1 <==> es[0].reply.code == 250 || es[0].reply.code == 421)
    && (|es| == 2 ==> es[1].command == Helo(host))
    && (ok <==> es[|es| - 1].reply.code == 250)
  }

  /** What follows an unwelcome greeting: the close, with a QUIT before it after a 554 unless the server hung up. */
  ghost predicate Dismissed(es: seq<Event>) {
    && es != [] && es[0].Opened?
    && (es[1..] == [Closed]
        || (es[0].greeting.code == 554 && |es| == 3 && es[1].Sent? && es[1].command == Command.Quit && es[2] == Closed))
  }

  lemma {:induction false} LeftAlone(ssl: bool, greeting: Reply, rest: seq<Event>, r: Reply)
    requires rest == [Closed] || (greeting.code == 554 && rest == [Sent(Command.Quit, r), Closed])
    ensures var es := [Opened(ssl, greeting)] + rest;
      Dismissed(es) && forall i :: 1 <= i < |es| ==> !es[i].Opened? && !Greets(es[i])
  {
    var es := [Opened(ssl, greeting)] + rest;
    assert es[1..] == rest;
  }

  /** The trace went on with one opened socket and what followed it, after the close of a dead connection if any. */
  ghost predicate Dialled(start: seq<Event>, trace: seq<Event>, tail: seq<Event>) {
    && (trace == start + tail || trace == start + [Closed] + tail)
    && tail != [] && tail[0].Opened?
    && forall i :: 1 <= i < |tail| ==> !tail[i].Opened? && (tail[i].Sent? ==> !Greets(tail[i]))
  }

  /** Then that socket is the only one opened. */
  lemma {:induction false} OneOpened(start: seq<Event>, trace: seq<Event>, tail: seq<Event>)
    requires Dialled(start, trace, tail)
    ensures |start| <= |trace| - |tail| && trace[|trace| - |tail|] == tail[0] && NoHelloSince(start, trace)
    ensures forall i :: |start| <= i < |trace| && trace[i].Opened? ==> i == |trace| - |tail| && trace[i..] == tail
  {
    assert trace[|trace| - |tail|..] == tail;
    forall i | |start| <= i < |trace| ensures !Greets(trace[i]) {
      assert i < |trace| - |tail| ==> trace[i] == Closed;
      assert i >= |trace| - |tail| ==> trace[i] == tail[i - (|trace| - |tail|)];
    }
  }

  /** `stream_socket_client`. Whether a socket opens is up to the network; `dials` lists what was asked of it, true for
      an encrypted socket. */
  class Network {
    ghost var dials: seq<bool>

    constructor ()
      ensures dials == []
    {
      dials := [];
    }

    method Dial(ssl: bool) returns (open: bool)
      modifies this
      ensures dials == old(dials) + [ssl]
    {
      dials := dials + [ssl];
      open := *;
    }
  }

  class SmtpClient {
    const policy: Policy
    const network: Network
    var connection: bool        // smtp_conn is a live resource
    var serverCaps: Option<Caps>
    var heloReply: Reply
    var lastReply: Reply
    ghost var trace: seq<Event>
    ghost var now: Monitor      // what the trace so far amounts to

    /** The trace so far was allowed, and the object agrees with it about the connection. */
    ghost predicate Valid()
      reads this
    {
      && Run(policy, trace) == Some(now)
      && now.open == connection
      && (!connection ==> now == INITIAL && serverCaps == None)
    }

    /** Connected, between commands. */
    ghost predicate Idle()
      reads this
    {
      Valid() && connection && now.greeted && !now.quit && !now.inData
    }

    /** Between the 354 and the final dot. */
    ghost predicate InMessage()
      reads this
    {
      Valid() && connection && now.greeted && !now.quit && now.inData && Trusted(policy, now)
    }

    /** Not connected, or connected, between commands, authenticated and encrypted as configured. */
    ghost predicate Settled()
      reads this
    {
      Valid() && (connection ==> Idle() && Trusted(policy, now))
    }

    constructor (policy: Policy)
      ensures Valid() && !connection && this.policy == policy && trace == [] && fresh(network) && network.dials == []
    {
      this.policy := policy;
      network := new Network();
      connection, serverCaps, trace, now := false, None, [], INITIAL;
      heloReply, lastReply := Reply(0, []), Reply(0, []);
    }

    ghost method Log(e: Event)
      requires Run(policy, trace) == Some(now) && Legal(policy, now, e)
      modifies this`trace, this`now
      ensures trace == old(trace) + [e] && now == Next(old(now), e)
      ensures Run(policy, trace) == Some(now)
    {
      trace, now := trace + [e], Next(now, e);
    }

    /** `SMTP::close`. */
    method Close()
      requires Valid()
      modifies this
      ensures Valid() && !connection && NoHelloSince(old(trace), trace)
      ensures trace == old(trace) + if old(connection) then [Closed] else []
      ensures lastReply == old(lastReply) && heloReply == Reply(0, [])
    {
      serverCaps, heloReply := None, Reply(0, []);
      if connection {
        Log(Closed);
        connection := false;
      }
    }

    /** `SMTP::connected`: may discover that the server hung up. */
    method Connected() returns (b: bool)
      requires Valid()
      modifies this
      ensures Valid() && b == connection && NoHelloSince(old(trace), trace) && lastReply == old(lastReply)
      ensures b ==> old(connection) && trace == old(trace) && now == old(now)
      ensures !b ==> trace == old(trace) + if old(connection) then [Closed] else []
      ensures b ==> serverCaps == old(serverCaps) && heloReply == old(heloReply)
    {
      b := connection;
      if connection {
        var eof: bool := *;
        if eof {
          Close();
          b := false;
        }
      }
    }

    /** `SMTP::sendCommand`. */
    method SendCommand(c: Command, wanted: set<int>) returns (ok: bool)
      requires Valid()
      requires connection && OneLineCommand(c) ==> MaySend(policy, now, c)
      modifies this
      ensures Valid() && old(trace) <= trace
      ensures connection ==> old(connection) && serverCaps == old(serverCaps)
      ensures connection && OneLineCommand(c) ==>
        now == AfterSent(old(now), c, lastReply) && trace == old(trace) + [Sent(c, lastReply)]
      ensures connection && !OneLineCommand(c) ==> now == old(now) && trace == old(trace) && !ok
      ensures !connection ==> !ok && trace == old(trace) + if old(connection) then [Closed] else []
      ensures ok ==> connection && lastReply.code in wanted
      ensures !ok && connection && OneLineCommand(c) ==> lastReply.code !in wanted
    {
      var up := Connected();
      if !up || !OneLineCommand(c) {
        return false;
      }
      var reply: Reply := *;
      lastReply := reply;
      Log(Sent(c, reply));
      ok := reply.code in wanted;
    }

    /** `SMTP::sendHello`. */
    method SendHello(c: Command) returns (ok: bool)
      requires Valid() && (connection ==> Idle()) && (c.Ehlo? || c.Helo?)
      modifies this
      ensures Valid() && (connection ==> Idle()) && old(trace) <= trace
      ensures serverCaps.Some? ==> now.caps == serverCaps
      ensures ok <==> connection && serverCaps.Some?
      ensures ok ==> |trace| > |old(trace)| && IsHello(trace[|trace| - 1], serverCaps.value)
      ensures connection ==> HelloSince(old(trace), trace, serverCaps)
      ensures connection ==> old(connection) && now.encrypted == old(now.encrypted)
      ensures connection && OneLineCommand(c) ==> trace == old(trace) + [Sent(c, lastReply)] && ok == (lastReply.code == 250)
      ensures connection && !OneLineCommand(c) ==> trace == old(trace) && !ok
      ensures !connection ==> !ok
      ensures heloReply == lastReply || !connection
    {
      ok := SendCommand(c, {250});
      heloReply := lastReply;
      if ok {
        var kind := if c.Ehlo? then "EHLO" else "HELO";
        serverCaps := Some(HelloCaps(kind, lastReply.lines, |lastReply.lines|));
      } else {
        serverCaps := None;
      }
    }

    /** `SMTP::hello`: EHLO, then HELO unless the server is shutting down. */
    method Hello(host: bytes) returns (ok: bool)
      requires Valid() && (connection ==> Idle())
      modifies this
      ensures Valid() && (connection ==> Idle()) && old(trace) <= trace
      ensures serverCaps.Some? ==> now.caps == serverCaps
      ensures ok <==> connection && serverCaps.Some?
      ensures ok ==> |trace| > |old(trace)| && IsHello(trace[|trace| - 1], serverCaps.value)
      ensures connection ==> HelloSince(old(trace), trace, serverCaps)
      ensures connection ==> old(connection) && now.encrypted == old(now.encrypted)
      ensures connection && OneLine(host) ==> Greeting(host, trace[|old(trace)|..], ok)
    {
      ok := SendHello(Ehlo(host));
      if ok || heloReply.code == 421 {
        return ok;
      }
      ghost var refused := trace;
      ok := SendHello(Helo(host));
      if connection {
        HelloAfterRefusal(old(trace), refused, trace, serverCaps);
      }
    }

    /** `SMTP::startTLS`: the handshake itself may fail. */
    method StartTls() returns (ok: bool)
      requires Valid() && (connection ==> Idle())
      modifies this
      ensures Valid() && (connection ==> Idle()) && old(trace) <= trace
      ensures connection ==> NoHelloSince(old(trace), trace)
      ensures ok ==> connection && now.encrypted
      ensures ok ==> trace == old(trace) + [Sent(Command.StartTls, lastReply), TlsStarted] && lastReply.code == 220
      ensures !ok && connection ==> trace == old(trace) + [Sent(Command.StartTls, lastReply)]
    {
      ok := SendCommand(Command.StartTls, {220});
      if ok {
        var cryptoOk: bool := *;
        if cryptoOk {
          Log(TlsStarted);
        }
        ok := cryptoOk;
      }
    }

    /** One authentication step. */
    method AuthStep(c: Command, wanted: set<int>) returns (ok: bool)
      requires Valid() && IsAuthStep(c) && (connection ==> Idle() && MaySend(policy, now, c))
      modifies this
      ensures Valid() && (connection ==> Idle()) && old(trace) <= trace
      ensures connection ==> NoHelloSince(old(trace), trace)
      ensures connection ==> old(connection) && now.encrypted == old(now.encrypted)
      ensures connection ==> now.challenged == (lastReply.code == 334) && now.authed == (lastReply.code == 235)
      ensures ok ==> connection && lastReply.code in wanted
      ensures connection && !ok ==> lastReply.code !in wanted
      ensures connection ==> trace == old(trace) + [Sent(c, lastReply)]
    {
      ok := SendCommand(c, wanted);
    }

    /** The AUTH command. */
    method AuthStart(mechanism: string, wanted: set<int>) returns (ok: bool)
      requires Idle() && MaySend(policy, now, Auth(mechanism))
      modifies this
      ensures Valid() && (connection ==> Idle()) && old(trace) <= trace
      ensures connection ==> NoHelloSince(old(trace), trace)
      ensures connection ==> old(connection) && now.encrypted == old(now.encrypted)
      ensures connection ==> now.challenged == (lastReply.code == 334) && now.authed == (lastReply.code == 235)
      ensures ok ==> connection && lastReply.code in wanted
      ensures connection ==> Talked(mechanism, old(trace), trace, [lastReply.code])
      ensures connection && !ok ==> lastReply.code !in wanted
    {
      ok := AuthStep(Auth(mechanism), wanted);
      if connection {
        TalkStarts(mechanism, old(trace), trace, lastReply);
      }
    }

    /** One more line of credentials. */
    method AuthNext(mechanism: string, ghost before: seq<Event>, ghost codes: seq<int>, wanted: set<int>)
      returns (ok: bool)
      requires Idle() && now.challenged && Talked(mechanism, before, trace, codes)
      modifies this
      ensures Valid() && (connection ==> Idle()) && old(trace) <= trace
      ensures connection ==> NoHelloSince(old(trace), trace)
      ensures connection ==> old(connection) && now.encrypted == old(now.encrypted)
      ensures connection ==> now.challenged == (lastReply.code == 334) && now.authed == (lastReply.code == 235)
      ensures ok ==> connection && lastReply.code in wanted
      ensures connection ==> Talked(mechanism, before, trace, codes + [lastReply.code])
      ensures connection && !ok ==> lastReply.code !in wanted
    {
      ok := AuthStep(Credentials, wanted);
      if connection {
        TalkGoesOn(mechanism, before, old(trace), codes, trace, lastReply);
      }
    }

    /** PLAIN and CRAM-MD5. */
    method OneCredential(mechanism: string, ghost oauth: Option<nat>) returns (ok: bool)
      requires Idle() && MaySend(policy, now, Auth(mechanism)) && (mechanism == "PLAIN" || mechanism == "CRAM-MD5")
      modifies this
      ensures Valid() && (connection ==> Idle()) && old(trace) <= trace
      ensures connection ==> NoHelloSince(old(trace), trace)
      ensures connection ==> old(connection) && now.encrypted == old(now.encrypted)
      ensures ok ==> connection && now.authed
      ensures ok ==> AuthDialogue(mechanism, oauth, old(trace), trace)
      ensures !ok && connection ==> AuthRefused(mechanism, oauth, old(trace), trace)
    {
      hide Run, Talked, Greets, HelloCaps, AuthRefused;
      ok := AuthStart(mechanism, {334});
      ghost var codes := [lastReply.code];
      if ok {
        ok := AuthNext(mechanism, old(trace), [334], {235});
        codes := [334] + [lastReply.code];
        assert ok ==> codes == [334, 235] && Succeeds(mechanism, oauth, codes);
      }
      if !ok && connection {
        RefusedNow(mechanism, oauth, old(trace), trace, codes);
      }
    }

    /** LOGIN. */
    method NameAndPassword(ghost oauth: Option<nat>) returns (ok: bool)
      requires Idle() && MaySend(policy, now, Auth("LOGIN"))
      modifies this
      ensures Valid() && (connection ==> Idle()) && old(trace) <= trace
      ensures connection ==> NoHelloSince(old(trace), trace)
      ensures connection ==> old(connection) && now.encrypted == old(now.encrypted)
      ensures ok ==> connection && now.authed
      ensures ok ==> AuthDialogue("LOGIN", oauth, old(trace), trace)
      ensures !ok && connection ==> AuthRefused("LOGIN", oauth, old(trace), trace)
    {
      hide Run, Talked, Greets, HelloCaps, AuthRefused;
      ok := AuthStart("LOGIN", {334});
      ghost var codes := [lastReply.code];
      if ok {
        ok := AuthNext("LOGIN", old(trace), [334], {334});
        codes := [334] + [lastReply.code];
      }
      if ok {
        ok := AuthNext("LOGIN", old(trace), [334] + [334], {235});
        codes := [334] + [334] + [lastReply.code];
        assert ok ==> codes == [334, 334, 235] && Succeeds("LOGIN", oauth, codes);
      }
      if !ok && connection {
        RefusedNow("LOGIN", oauth, old(trace), trace, codes);
      }
    }

    /** XOAUTH2: the token in one part, or in two with an empty line when the server asks for it. */
    method Token(length: nat) returns (ok: bool)
      requires Idle() && MaySend(policy, now, Auth("XOAUTH2"))
      modifies this
      ensures Valid() && (connection ==> Idle()) && old(trace) <= trace
      ensures connection ==> NoHelloSince(old(trace), trace)
      ensures connection ==> old(connection) && now.encrypted == old(now.encrypted)
      ensures ok ==> connection && now.authed
      ensures ok ==> AuthDialogue("XOAUTH2", Some(length), old(trace), trace)
      ensures !ok && connection ==> AuthRefused("XOAUTH2", Some(length), old(trace), trace)
    {
      hide Run, Talked, Greets, HelloCaps, AuthRefused;
      if length <= 497 {
        ok := AuthStart("XOAUTH2", {235});
        assert ok ==> Succeeds("XOAUTH2", Some(length), [235]);
        if !ok && connection {
          RefusedNow("XOAUTH2", Some(length), old(trace), trace, [lastReply.code]);
        }
      } else {
        ok := LongToken(length);
      }
    }

    method LongToken(length: nat) returns (ok: bool)
      requires Idle() && MaySend(policy, now, Auth("XOAUTH2")) && length > 497
      modifies this
      ensures Valid() && (connection ==> Idle()) && old(trace) <= trace
      ensures connection ==> NoHelloSince(old(trace), trace)
      ensures connection ==> old(connection) && now.encrypted == old(now.encrypted)
      ensures ok ==> connection && now.authed
      ensures ok ==> AuthDialogue("XOAUTH2", Some(length), old(trace), trace)
      ensures !ok && connection ==> AuthRefused("XOAUTH2", Some(length), old(trace), trace)
    {
      hide Run, Talked, Greets, HelloCaps, AuthRefused;
      ok := AuthStart("XOAUTH2", {334});
      ghost var codes := [lastReply.code];
      if ok {
        ok := AuthNext("XOAUTH2", old(trace), [334], {235, 334});
        codes := [334] + [lastReply.code];
        if ok && lastReply.code == 334 {
          ok := AuthNext("XOAUTH2", old(trace), [334] + [334], {235});
          codes := [334] + [334] + [lastReply.code];
          assert ok ==> codes == [334, 334, 235] && Succeeds("XOAUTH2", Some(length), codes);
        } else {
          assert ok ==> codes == [334, 235] && Succeeds("XOAUTH2", Some(length), codes);
        }
      }
      if !ok && connection {
        RefusedNow("XOAUTH2", Some(length), old(trace), trace, codes);
      }
    }

    /** `SMTP::authenticate` after the choice of mechanism; `oauth` is the length of the token, if there is one. */
    method Exchange(mechanism: string, oauth: Option<nat>) returns (ok: bool)
      requires Idle() && MaySend(policy, now, Auth(mechanism))
      modifies this
      ensures Valid() && (connection ==> Idle()) && old(trace) <= trace
      ensures connection ==> NoHelloSince(old(trace), trace)
      ensures connection ==> old(connection) && now.encrypted == old(now.encrypted)
      ensures ok ==> connection && now.authed
      ensures ok ==> AuthDialogue(mechanism, oauth, old(trace), trace)
      ensures !ok && connection ==> AuthRefused(mechanism, oauth, old(trace), trace)
    {
      hide Run, Greets, HelloCaps, AuthDialogue;
      if mechanism == "PLAIN" || mechanism == "CRAM-MD5" {
        ok := OneCredential(mechanism, oauth);
      } else if mechanism == "LOGIN" {
        ok := NameAndPassword(oauth);
      } else if mechanism == "XOAUTH2" && oauth.Some? {
        ok := Token(oauth.value);
      } else {
        ok := false;
      }
    }

    /** `SMTP::authenticate`. Succeeds only on a 235. */
    method Authenticate(oauth: Option<nat>) returns (ok: bool)
      requires Valid() && (connection ==> Idle())
      requires serverCaps.Some? ==> now.caps == serverCaps
      requires connection && policy.secure ==> now.encrypted
      modifies this
      ensures Valid() && (connection ==> Idle()) && old(trace) <= trace
      ensures connection ==> NoHelloSince(old(trace), trace)
      ensures connection ==> old(connection) && now.encrypted == old(now.encrypted)
      ensures ok ==> connection && now.authed
      ensures ok ==> old(ChooseMechanism(serverCaps, policy.mechanism)).Some?
      ensures ok ==> AuthDialogue(old(ChooseMechanism(serverCaps, policy.mechanism).value), oauth, old(trace), trace)
      ensures !ok && connection ==>
        match old(ChooseMechanism(serverCaps, policy.mechanism))
        case None => trace == old(trace)
        case Some(mechanism) => AuthRefused(mechanism, oauth, old(trace), trace)
    {
      hide AuthDialogue, AuthRefused;
      var mechanism := ChooseMechanism(serverCaps, policy.mechanism);
      if mechanism.None? {
        return false;
      }
      ok := Exchange(mechanism.value, oauth);
    }

    /** `SMTP::quit` with its default of closing in any case. */
    method Quit()
      requires Valid() && (connection ==> !now.quit && !now.inData)
      modifies this
      ensures Valid() && !connection && NoHelloSince(old(trace), trace)
      ensures !old(connection) ==> trace == old(trace)
      ensures old(connection) ==>
        trace == old(trace) + [Closed] || trace == old(trace) + [Sent(Command.Quit, lastReply), Closed]
    {
      var ok := SendCommand(Command.Quit, {221});
      Close();
    }

    /** Reads the greeting of a socket just opened: 220 is welcome; after anything else the socket is closed again,
        after a 554 with a QUIT. */
    method Welcome(ssl: bool) returns (ok: bool, ghost tail: seq<Event>)
      requires Valid() && !connection
      modifies this
      ensures Valid() && trace == old(trace) + tail && tail != [] && tail[0].Opened? && tail[0].encrypted == ssl
      ensures forall i :: 1 <= i < |tail| ==> !tail[i].Opened? && !Greets(tail[i])
      ensures ok <==> tail[0].greeting.code == 220
      ensures ok ==> Idle() && now.encrypted == ssl && tail == [Opened(ssl, lastReply)]
      ensures !ok ==> !connection && Dismissed(tail)
    {
      hide Run;
      var greeting: Reply := *;
      lastReply := greeting;
      Log(Opened(ssl, greeting));
      connection := true;
      tail := [Opened(ssl, greeting)];
      if greeting.code == 220 {
        return true, tail;
      }
      ghost var before, rest := trace, [Closed];
      if greeting.code == 554 {
        Quit();
        rest := trace[|before|..];
      }
      Close();
      ok := false;
      assert trace == before + rest;
      LeftAlone(ssl, greeting, rest, lastReply);
      Assoc(old(trace), tail, rest);
      tail := tail + rest;
    }

    /** `SMTP::connect`: opens the socket and reads the greeting; refuses when a connection is still up. It succeeds
        exactly when this call opened a socket greeted with 220. */
    method Connect(ssl: bool) returns (ok: bool)
      requires Valid()
      modifies this, network
      ensures Valid() && NoHelloSince(old(trace), trace)
      ensures network.dials == old(network.dials) + [ssl] || (network.dials == old(network.dials) && connection && !ok)
      ensures ok <==> exists i :: |old(trace)| <= i < |trace| && trace[i].Opened? && trace[i].greeting.code == 220
      ensures ok ==> Idle() && now.encrypted == ssl && |trace| > |old(trace)| && trace[|trace| - 1] == Opened(ssl, lastReply)
      ensures !ok && connection ==> old(connection) && trace == old(trace) && now == old(now)
      ensures forall i :: |old(trace)| <= i < |trace| && trace[i].Opened? ==>
        trace[i].encrypted == ssl && (trace[i].greeting.code != 220 ==> !connection && Dismissed(trace[i..]))
    {
      hide Run, Dismissed, Greets;
      var up := Connected();
      if up {
        return false;
      }
      var socketOpen := network.Dial(ssl);
      if !socketOpen {
        return false;
      }
      ghost var tail;
      ok, tail := Welcome(ssl);
      OneOpened(old(trace), trace, tail);
    }

    /** `SMTP::mail`. */
    method Mail(from: bytes) returns (ok: bool)
      requires Settled()
      modifies this
      ensures Settled() && old(trace) <= trace
      ensures ok ==> connection && now.mail == Some(from) && now.accepted == []
      ensures connection && OneLine(from) ==> trace == old(trace) + [Sent(MailFrom(from), lastReply)]
      ensures connection && OneLine(from) ==> ok == (lastReply.code == 250)
      ensures connection ==> old(connection) && serverCaps == old(serverCaps)
    {
      ok := SendCommand(MailFrom(from), {250});
    }

    /** `SMTP::recipient`. */
    method Recipient(address: bytes) returns (ok: bool)
      requires Settled() && (connection ==> now.mail.Some?)
      modifies this
      ensures Settled() && old(trace) <= trace
      ensures connection ==> old(connection) && now.mail == old(now.mail)
      ensures connection ==> now.accepted == old(now.accepted) + (if ok then [address] else [])
      ensures ok ==> connection
      ensures connection && OneLine(address) ==> trace == old(trace) + [Sent(RcptTo(address), lastReply)]
      ensures connection && OneLine(address) ==> ok == (lastReply.code == 250 || lastReply.code == 251)
    {
      ok := SendCommand(RcptTo(address), {250, 251});
    }

    /** `SMTP::xclient` with at least one attribute to send. */
    method XClient() returns (ok: bool)
      requires Settled()
      modifies this
      ensures Settled() && old(trace) <= trace
      ensures connection ==> trace == old(trace) + [Sent(Command.XClient, lastReply)]
      ensures connection ==> old(connection) && serverCaps == old(serverCaps)
    {
      ok := SendCommand(Command.XClient, {250});
    }

    /** `SMTP::reset`. */
    method Reset() returns (ok: bool)
      requires Settled()
      modifies this
      ensures Settled() && old(trace) <= trace
      ensures connection ==> trace == old(trace) + [Sent(Rset, lastReply)]
    {
      ok := SendCommand(Rset, {250});
    }

    /** `client_send` of one line of the message. */
    method SendLine(line: bytes)
      requires InMessage()
      modifies this
      ensures InMessage()
      ensures trace == old(trace) + [MessageLine(line)]
    {
      Log(MessageLine(line));
    }

    /** The message lines, one write each. */
    method SendLines(lines: seq<bytes>)
      requires InMessage()
      modifies this
      ensures InMessage()
      ensures trace == old(trace) + LineEvents(lines)
    {
      assert old(trace) + [] == old(trace);
      for n := 0 to |lines|
        invariant InMessage()
        invariant trace == old(trace) + LineEvents(lines[..n])
      {
        SendLine(lines[n]);
        assert LineEvents(lines[..n + 1]) == LineEvents(lines[..n]) + [MessageLine(lines[n])];
      }
      assert lines[..|lines|] == lines;
    }

    /** `SMTP::data`: DATA, the folded and stuffed lines of the message, and the final dot. */
    method Data(msg: bytes) returns (ok: bool)
      requires Settled() && (connection ==> now.mail.Some? && now.accepted != [])
      modifies this
      ensures Settled() && old(trace) <= trace
      ensures ok ==> old(connection)
      ensures ok ==> Delivers(policy, old(trace), trace, old(now.mail.value), old(now.accepted), msg)
      ensures !ok && connection ==> Refused(msg, trace[|old(trace)|..])
    {
      hide Delivers, Refused, Run, Greets, SmtpData.Stuff, SmtpData.StuffAll, SmtpData.DataLines, SmtpData.Wire;
      ok := SendCommand(DataStart, {354});
      if !ok {
        if connection {
          NotStarted(msg, old(trace), trace, lastReply);
        }
        return;
      }
      ghost var go := lastReply;
      var writes := SmtpData.SendData(msg);
      var lines := writes[..|writes| - 1];
      assert lines == SmtpData.StuffAll(SmtpData.DataLines(msg));
      SendLines(lines);
      ok := SendCommand(DataEnd, {250});
      if ok {
        DeliversNow(policy, old(trace), trace, old(now.mail.value), old(now.accepted), msg, go, lastReply);
      } else if connection {
        NotFinished(msg, old(trace), trace, go, lastReply);
      }
    }
  }
}
