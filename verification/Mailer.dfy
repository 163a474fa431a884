/** `smtpConnect` and `smtpSend`: one client object, any list of hosts, any server. */
module Mailer {
  import opened Bytes
  import opened SmtpProtocol
  import opened SmtpSession
  import opened Recipients

  datatype Prefix = NoPrefix | SslPrefix | TlsPrefix

  /** An entry of the host list; `valid` is the outcome of the two syntax checks on it. */
  datatype Host = Host(valid: bool, prefix: Prefix)

  datatype Secure = NotSecure | StartTlsMode | SslMode

  datatype Settings = Settings(
    hosts: seq<Host>, secure: Secure, autoTls: bool, localhost: bool, opensslLoaded: bool,
    auth: bool, mechanism: Option<string>, oauth: Option<nat>, hello: bytes,
    smtpUtf8: bool, sendXClient: bool, keepAlive: bool)

  function PolicyOf(cfg: Settings): Policy { Policy(cfg.auth, cfg.secure != NotSecure, cfg.mechanism) }

  datatype Outcome =
    | Delivered
    | ConnectFailed
    | NoSmtpUtf8
    | FromFailed
    | DataNotAccepted
    | RecipientsFailed(bad: seq<bytes>)

  /** The addresses of the recipients that were taken, or that were refused, in order. */
  function Picked(list: seq<Recipient>, taken: seq<bool>, which: bool): (r: seq<bytes>)
    requires |taken| == |list|
    ensures |r| <= |list|
  {
    if list == [] then []
    else
      var n := |list| - 1;
      Picked(list[..n], taken[..n], which) + (if taken[n] == which then [list[n].address] else [])
  }

  lemma {:induction false} PickedPush(list: seq<Recipient>, i: nat, taken: seq<bool>, ok: bool)
    requires i < |list| && |taken| == i
    ensures forall which ::
      Picked(list[..i + 1], taken + [ok], which)
      == Picked(list[..i], taken, which) + (if ok == which then [list[i].address] else [])
  {
    assert list[..i + 1][..i] == list[..i] && (taken + [ok])[..i] == taken;
  }

  lemma {:induction false} PickedConcat(a: seq<Recipient>, ta: seq<bool>, b: seq<Recipient>, tb: seq<bool>)
    requires |ta| == |a| && |tb| == |b|
    ensures forall which :: Picked(a + b, ta + tb, which) == Picked(a, ta, which) + Picked(b, tb, which)
    decreases |b|
  {
    if b == [] {
      assert a + b == a && ta + tb == ta;
    } else {
      var n := |b| - 1;
      assert (a + b)[..|a| + n] == a + b[..n] && (ta + tb)[..|a| + n] == ta + tb[..n];
      PickedConcat(a, ta, b[..n], tb[..n]);
    }
  }

  /** Taken and refused recipients add up; with none refused, all were taken, in order. */
  lemma {:induction false} PickedAll(list: seq<Recipient>, taken: seq<bool>)
    requires |taken| == |list|
    ensures |Picked(list, taken, true)| + |Picked(list, taken, false)| == |list|
    ensures Picked(list, taken, false) == [] ==> Picked(list, taken, true) == Addresses(list)
  {
    if list != [] {
      var n := |list| - 1;
      PickedAll(list[..n], taken[..n]);
      assert Addresses(list) == Addresses(list[..n]) + [list[n].address];
    }
  }

  function Addresses(list: seq<Recipient>): (r: seq<bytes>)
    ensures |r| == |list| && forall i :: 0 <= i < |r| ==> r[i] == list[i].address
  {
    seq(|list|, i requires 0 <= i < |list| => list[i].address)
  }

  /** The sockets asked for when the valid ones of these entries are tried one after the other: encrypted from the start
      for a prefix saying so, or without a prefix as the setting says. */
  function Modes(hosts: seq<Host>, secure: Secure): seq<bool> {
    if hosts == [] then []
    else
      var n := |hosts| - 1;
      Modes(hosts[..n], secure)
      + (if !hosts[n].valid then []
         else [hosts[n].prefix == SslPrefix || (hosts[n].prefix == NoPrefix && secure == SslMode)])
  }

  lemma {:induction false} ModesPush(hosts: seq<Host>, secure: Secure, n: nat)
    requires n < |hosts|
    ensures Modes(hosts[..n + 1], secure) == Modes(hosts[..n], secure)
      + (if !hosts[n].valid then []
         else [hosts[n].prefix == SslPrefix || (hosts[n].prefix == NoPrefix && secure == SslMode)])
  {
    assert hosts[..n + 1][..n] == hosts[..n];
  }

  /** The entries up to `via` were tried, in order. */
  ghost predicate TriedUpTo(hosts: seq<Host>, secure: Secure, via: Host, before: seq<bool>, dials: seq<bool>) {
    exists n :: 0 <= n < |hosts| && hosts[n] == via && dials == before + Modes(hosts[..n + 1], secure)
  }

  /** The entries were tried in order up to one that asks for encryption, which is not there. */
  ghost predicate StoppedEarly(hosts: seq<Host>, secure: Secure, before: seq<bool>, dials: seq<bool>) {
    exists n :: 0 <= n <= |hosts| && dials == before + Modes(hosts[..n], secure)
      && (n < |hosts| ==> hosts[n].valid && (hosts[n].prefix != NoPrefix || secure != NotSecure))
  }

  lemma {:induction false} TriedNow(hosts: seq<Host>, secure: Secure, n: nat, before: seq<bool>, dials: seq<bool>)
    requires n < |hosts| && dials == before + Modes(hosts[..n + 1], secure)
    ensures TriedUpTo(hosts, secure, hosts[n], before, dials)
  {
    hide Modes;
  }

  lemma {:induction false} StoppedNow(hosts: seq<Host>, secure: Secure, n: nat, before: seq<bool>, dials: seq<bool>)
    requires n <= |hosts| && dials == before + Modes(hosts[..n], secure)
    requires n < |hosts| ==> hosts[n].valid && (hosts[n].prefix != NoPrefix || secure != NotSecure)
    ensures StoppedEarly(hosts, secure, before, dials)
  {
    hide Modes;
  }

  lemma {:induction false} NoModes(secure: Secure)
    ensures Modes([], secure) == []
  {
  }

  /** No socket opened since then was greeted with 220. */
  ghost predicate NoneWelcome(before: seq<Event>, trace: seq<Event>) {
    forall i :: |before| <= i < |trace| && trace[i].Opened? ==> trace[i].greeting.code != 220
  }

  /** Some hello since then was answered with an offer of STARTTLS. */
  ghost predicate OfferedTls(before: seq<Event>, trace: seq<Event>) {
    exists i, caps: Caps :: |before| <= i < |trace| && IsHello(trace[i], caps) && "STARTTLS" in caps
  }

  lemma {:induction false} OfferedStill(before: seq<Event>, middle: seq<Event>, trace: seq<Event>, later: seq<Event>)
    requires before <= middle && trace <= later && OfferedTls(middle, trace)
    ensures OfferedTls(before, later)
  {
    var i, c: Caps :| |middle| <= i < |trace| && IsHello(trace[i], c) && "STARTTLS" in c;
    assert later[i] == trace[i];
  }

  lemma {:induction false} NotOffered(before: seq<Event>, middle: seq<Event>, trace: seq<Event>, caps: Option<Caps>)
    requires HelloSince(before, middle, caps) && NoHelloSince(middle, trace)
    requires caps.Some? ==> "STARTTLS" !in caps.value
    ensures !OfferedTls(before, trace)
  {
    assert forall k :: 0 <= k < |middle| ==> middle[k] == trace[k];
    forall i, c: Caps | |before| <= i < |trace| && IsHello(trace[i], c) ensures "STARTTLS" !in c {
      assert Greets(trace[i]);
      assert i < |middle|;
      assert IsHello(middle[i], c);
      assert caps == Some(c);
    }
  }

  /** A connection without a hello in front adds no offer. */
  lemma {:induction false} OfferedLater(before: seq<Event>, middle: seq<Event>, trace: seq<Event>)
    requires NoHelloSince(before, middle) && middle <= trace
    ensures OfferedTls(before, trace) ==> OfferedTls(middle, trace)
  {
    if OfferedTls(before, trace) {
      var i, c: Caps :| |before| <= i < |trace| && IsHello(trace[i], c) && "STARTTLS" in c;
      assert i < |middle| ==> !Greets(middle[i]);
    }
  }

  class MailTransport {
    const cfg: Settings
    const smtp: SmtpClient
    const book: RecipientBook

    ghost predicate Valid()
      reads this, smtp, book
    {
      smtp.policy == PolicyOf(cfg) && smtp.Settled() && Consistent(book.Contents())
    }

    /** The three lists in the order they are offered. */
    ghost function Everyone(): seq<Recipient>
      reads this, book
    {
      book.to + book.cc + book.bcc
    }

    constructor (cfg: Settings, book: RecipientBook)
      requires Consistent(book.Contents())
      ensures Valid() && fresh(smtp) && !smtp.connection && smtp.trace == [] && this.book == book && this.cfg == cfg
      ensures fresh(smtp.network) && smtp.network.dials == []
    {
      this.cfg := cfg;
      this.book := book;
      smtp := new SmtpClient(PolicyOf(cfg));
    }

    /** `SMTP::getServerExt` used as a condition: the extension was announced with a truthy value. */
    predicate Offers(name: string)
      reads smtp
    {
      smtp.serverCaps.Some? && name in smtp.serverCaps.value
    }

    /** The conditions of automatic encryption that do not depend on the server. */
    predicate MayUpgrade(sslHost: bool) { cfg.autoTls && !cfg.localhost && cfg.opensslLoaded && !sslHost }

    /** Something besides a welcome is asked of the server: authentication, or encryption by STARTTLS. */
    predicate Demanding() {
      cfg.auth || cfg.secure == StartTlsMode || exists n :: 0 <= n < |cfg.hosts| && cfg.hosts[n].prefix == TlsPrefix
    }

    /** Why no host would do: something more was asked, automatic encryption was offered, or no socket was welcome. */
    ghost predicate Unlucky(before: seq<Event>, trace: seq<Event>) {
      || Demanding() || NoneWelcome(before, trace)
      || (cfg.autoTls && !cfg.localhost && cfg.opensslLoaded && OfferedTls(before, trace))
    }

    lemma {:induction false} UnluckyAtFirst(trace: seq<Event>)
      ensures Unlucky(trace, trace)
    {
    }

    lemma {:induction false} DemandsTls(n: nat)
      requires n < |cfg.hosts|
      ensures cfg.auth || cfg.secure == StartTlsMode || cfg.hosts[n].prefix == TlsPrefix ==> Demanding()
    {
    }

    /** One more host that would not do. */
    lemma {:induction false} UnluckyStill(before: seq<Event>, middle: seq<Event>, trace: seq<Event>, tls: bool)
      requires before <= middle <= trace && Unlucky(before, middle) && (cfg.auth || tls ==> Demanding())
      requires !cfg.auth && !tls && !NoneWelcome(middle, trace) ==>
        cfg.autoTls && !cfg.localhost && cfg.opensslLoaded && OfferedTls(middle, trace)
      ensures Unlucky(before, trace)
    {
      hide Demanding, IsHello;
      if OfferedTls(before, middle) {
        OfferedStill(before, before, middle, trace);
      }
      if OfferedTls(middle, trace) {
        OfferedStill(before, middle, trace, trace);
      }
      assert forall k :: 0 <= k < |middle| ==> trace[k] == middle[k];
    }

    /** The part of `smtpConnect` inside the try block: greet, upgrade, greet again, authenticate. */
    method Negotiate(tlsWanted: bool, sslHost: bool) returns (ok: bool)
      requires smtp.policy == PolicyOf(cfg) && smtp.Idle()
      requires smtp.policy.secure ==> tlsWanted || smtp.now.encrypted
      modifies smtp
      ensures smtp.Valid() && (smtp.connection ==> smtp.Idle()) && old(smtp.trace) <= smtp.trace
      ensures ok && cfg.auth ==> smtp.connection && smtp.now.authed
      ensures ok && smtp.connection ==> Trusted(smtp.policy, smtp.now)
      ensures ok && smtp.connection && (tlsWanted || old(smtp.now.encrypted)) ==> smtp.now.encrypted
      ensures ok && smtp.connection && OfferedTls(old(smtp.trace), smtp.trace) ==>
        smtp.now.encrypted || !cfg.autoTls || cfg.localhost || !cfg.opensslLoaded || sslHost
      ensures !ok && !cfg.auth && !tlsWanted ==>
        OfferedTls(old(smtp.trace), smtp.trace) && cfg.autoTls && !cfg.localhost && cfg.opensslLoaded && !sslHost
    {
      ghost var before := smtp.trace;
      var greeted := smtp.Hello(cfg.hello);
      ghost var middle, caps := smtp.trace, smtp.serverCaps;
      var tls := tlsWanted;
      if MayUpgrade(sslHost) && Offers("STARTTLS") {
        tls := true;
      }
      if tls {
        ok := smtp.StartTls();
        if !ok {
          if !tlsWanted {
            assert OfferedTls(before, middle);
            OfferedStill(before, before, middle, smtp.trace);
          }
          return false;
        }
        greeted := smtp.Hello(cfg.hello);
      }
      ok := true;
      if cfg.auth {
        ok := smtp.Authenticate(cfg.oauth);
      }
      if !tls && MayUpgrade(sslHost) && smtp.connection {
        NotOffered(before, middle, smtp.trace, caps);
      }
    }

    /** One turn of the loop over the hosts: connect, negotiate, and leave again if that fails. */
    method TryHost(ssl: bool, tls: bool, sslHost: bool) returns (ok: bool)
      requires smtp.policy == PolicyOf(cfg) && smtp.Valid() && !smtp.connection
      requires smtp.policy.secure ==> tls || ssl
      modifies smtp, smtp.network
      ensures smtp.Valid() && old(smtp.trace) <= smtp.trace
      ensures smtp.network.dials == old(smtp.network.dials) + [ssl]
      ensures ok ==> (cfg.auth ==> smtp.connection && smtp.now.authed) && (smtp.connection ==> smtp.Settled())
      ensures ok && smtp.connection && (tls || ssl) ==> smtp.now.encrypted
      ensures ok && smtp.connection && OfferedTls(old(smtp.trace), smtp.trace) ==>
        smtp.now.encrypted || !cfg.autoTls || cfg.localhost || !cfg.opensslLoaded || sslHost
      ensures !ok ==> !smtp.connection
      ensures !ok && !cfg.auth && !tls && !NoneWelcome(old(smtp.trace), smtp.trace) ==>
        cfg.autoTls && !cfg.localhost && cfg.opensslLoaded && OfferedTls(old(smtp.trace), smtp.trace)
    {
      hide Run, Dismissed, IsHello, Greets;
      ok := smtp.Connect(ssl);
      if !ok {
        return;
      }
      ghost var greeting := smtp.trace;
      ok := Negotiate(tls, sslHost);
      if ok {
        OfferedLater(old(smtp.trace), greeting, smtp.trace);
        return;
      }
      ghost var failed := smtp.trace;
      smtp.Quit();
      if OfferedTls(greeting, failed) {
        OfferedStill(old(smtp.trace), greeting, failed, smtp.trace);
      }
    }

    /** The first `n` entries were tried in vain. */
    ghost predicate Searching(n: nat, before: seq<Event>, dials: seq<bool>)
      requires n <= |cfg.hosts|
      reads smtp, smtp.network
    {
      && smtp.policy == PolicyOf(cfg) && smtp.Valid() && !smtp.connection && before <= smtp.trace
      && smtp.network.dials == dials + Modes(cfg.hosts[..n], cfg.secure)
      && Unlucky(before, smtp.trace)
    }

    /** What a connection made through an entry of the list offers. */
    ghost predicate Reached(host: Host, since: seq<Event>)
      reads smtp
    {
      && smtp.policy == PolicyOf(cfg) && smtp.Settled()
      && (cfg.auth ==> smtp.connection && smtp.now.authed)
      && (smtp.connection && (host.prefix != NoPrefix || cfg.secure != NotSecure) ==> smtp.now.encrypted)
      && (smtp.connection && OfferedTls(since, smtp.trace) ==>
            smtp.now.encrypted || !cfg.autoTls || cfg.localhost || !cfg.opensslLoaded)
    }

    lemma {:induction false} SearchBegins(before: seq<Event>)
      requires Valid() && !smtp.connection && before <= smtp.trace && NoHelloSince(before, smtp.trace)
      requires forall i :: |before| <= i < |smtp.trace| ==> !smtp.trace[i].Opened?
      ensures Searching(0, before, smtp.network.dials)
    {
      NoModes(cfg.secure);
      hide Run, OfferedTls;
      assert cfg.hosts[..0] == [];
    }

    lemma {:induction false} SearchFacts(n: nat, before: seq<Event>, dials: seq<bool>)
      requires n <= |cfg.hosts| && Searching(n, before, dials)
      ensures smtp.policy == PolicyOf(cfg) && smtp.Valid() && !smtp.connection && before <= smtp.trace
      ensures Unlucky(before, smtp.trace)
      ensures n == |cfg.hosts| ==>
        && smtp.network.dials == dials + Modes(cfg.hosts, cfg.secure)
        && StoppedEarly(cfg.hosts, cfg.secure, dials, smtp.network.dials)
    {
      hide Run, Modes, NoneWelcome, OfferedTls, Demanding;
      if n == |cfg.hosts| {
        StoppedNow(cfg.hosts, cfg.secure, n, dials, smtp.network.dials);
        assert cfg.hosts[..n] == cfg.hosts;
      }
    }

    /** One entry of the list: skipped, out of the question without OpenSSL, or tried. */
    method TryEntry(n: nat, ghost before: seq<Event>, ghost dials: seq<bool>)
      returns (stop: bool, ok: bool, ghost since: seq<Event>)
      requires n < |cfg.hosts| && Searching(n, before, dials)
      modifies smtp, smtp.network
      ensures !stop ==> Searching(n + 1, before, dials)
      ensures stop && ok ==>
        && cfg.hosts[n].valid && before <= since <= smtp.trace && Reached(cfg.hosts[n], since)
        && TriedUpTo(cfg.hosts, cfg.secure, cfg.hosts[n], dials, smtp.network.dials)
      ensures stop && !ok ==>
        && !cfg.opensslLoaded && Searching(n, before, dials)
        && StoppedEarly(cfg.hosts, cfg.secure, dials, smtp.network.dials)
    {
      stop, ok, since := false, false, smtp.trace;
      ModesPush(cfg.hosts, cfg.secure, n);
      var host := cfg.hosts[n];
      if !host.valid {
        return;
      }
      var tls := cfg.secure == StartTlsMode;
      var secure := cfg.secure;
      var ssl := false;
      if host.prefix == SslPrefix || (host.prefix == NoPrefix && cfg.secure == SslMode) {
        ssl, tls, secure := true, false, SslMode;
      } else if host.prefix == TlsPrefix {
        tls, secure := true, StartTlsMode;
      }
      if secure != NotSecure && !cfg.opensslLoaded {
        StoppedNow(cfg.hosts, cfg.secure, n, dials, smtp.network.dials);
        return true, false, since;
      }
      hide Run, Modes, NoneWelcome, OfferedTls, Unlucky, TriedUpTo, StoppedEarly, Demanding;
      var up := TryHost(ssl, tls, secure == SslMode);
      if up {
        TriedNow(cfg.hosts, cfg.secure, n, dials, smtp.network.dials);
        return true, true, since;
      }
      DemandsTls(n);
      UnluckyStill(before, since, smtp.trace, tls);
    }

    /** `PHPMailer::smtpConnect`. Success means connected, authenticated by a 235 if that is configured, and
        encrypted if `SMTPSecure` or the entry of the host asks for it, or if automatic encryption was offered,
        whatever the hosts and whatever the servers answered. `via` is the host of a new connection and `since` the
        trace before it. */
    method SmtpConnect() returns (ok: bool, ghost via: Option<Host>, ghost since: seq<Event>)
      requires Valid()
      modifies smtp, smtp.network
      ensures Valid() && old(smtp.trace) <= smtp.trace
      ensures cfg.auth && ok ==> smtp.connection && smtp.now.authed
      ensures !ok ==> !smtp.connection
      ensures ok && via.None? ==> old(smtp.connection) && smtp.trace == old(smtp.trace)
      ensures ok && via.Some? ==> via.value in cfg.hosts && via.value.valid && old(smtp.trace) <= since <= smtp.trace
      ensures ok && via.Some? && smtp.connection && (via.value.prefix != NoPrefix || cfg.secure != NotSecure) ==>
        smtp.now.encrypted
      ensures ok && via.Some? && smtp.connection && OfferedTls(since, smtp.trace) ==>
        smtp.now.encrypted || !cfg.autoTls || cfg.localhost || !cfg.opensslLoaded
      ensures ok && via.Some? ==>
        TriedUpTo(cfg.hosts, cfg.secure, via.value, old(smtp.network.dials), smtp.network.dials)
      ensures ok && via.None? ==> smtp.network.dials == old(smtp.network.dials)
      ensures !ok && cfg.opensslLoaded ==>
        smtp.network.dials == old(smtp.network.dials) + Modes(cfg.hosts, cfg.secure)
      ensures !ok && !cfg.opensslLoaded ==>
        StoppedEarly(cfg.hosts, cfg.secure, old(smtp.network.dials), smtp.network.dials)
      ensures !ok ==> Unlucky(old(smtp.trace), smtp.trace)
    {
      via, since := None, smtp.trace;
      ghost var dials := smtp.network.dials;
      var up := smtp.Connected();
      if up {
        return true, via, since;
      }
      SearchBegins(old(smtp.trace));
      hide Run, Modes, NoneWelcome, OfferedTls, Unlucky, TriedUpTo, StoppedEarly, Demanding, Consistent, Searching;
      for n := 0 to |cfg.hosts|
        invariant Searching(n, old(smtp.trace), dials)
      {
        var stop;
        stop, ok, since := TryEntry(n, old(smtp.trace), dials);
        if stop {
          if ok {
            via := Some(cfg.hosts[n]);
          } else {
            SearchFacts(n, old(smtp.trace), dials);
          }
          return ok, via, since;
        }
      }
      SearchFacts(|cfg.hosts|, old(smtp.trace), dials);
      smtp.Close();
      ok := false;
    }

    /** One of the three recipient loops of `smtpSend`; `taken` says which recipients the server accepted. */
    method OfferRecipients(list: seq<Recipient>) returns (bad: seq<bytes>, ghost taken: seq<bool>)
      requires smtp.Settled() && (smtp.connection ==> smtp.now.mail.Some?)
      modifies smtp
      ensures smtp.Settled() && old(smtp.trace) <= smtp.trace
      ensures |taken| == |list| && bad == Picked(list, taken, false)
      ensures smtp.connection ==> old(smtp.connection) && smtp.now.mail == old(smtp.now.mail)
      ensures smtp.connection ==> smtp.now.accepted == old(smtp.now.accepted) + Picked(list, taken, true)
    {
      bad, taken := [], [];
      for i := 0 to |list|
        invariant smtp.Settled() && old(smtp.trace) <= smtp.trace
        invariant |taken| == i && bad == Picked(list[..i], taken, false)
        invariant smtp.connection ==> old(smtp.connection) && smtp.now.mail == old(smtp.now.mail)
        invariant smtp.connection ==> smtp.now.accepted == old(smtp.now.accepted) + Picked(list[..i], taken, true)
      {
        hide Picked, Run, Trusted;
        var ok := smtp.Recipient(list[i].address);
        PickedPush(list, i, taken, ok);
        if smtp.connection && ok {
          Assoc(old(smtp.now.accepted), Picked(list[..i], taken, true), [list[i].address]);
        }
        taken := taken + [ok];
        if !ok {
          bad := bad + [list[i].address];
        }
      }
      assert list[..|list|] == list;
    }

    /** All three lists, in order. */
    method OfferAll() returns (bad: seq<bytes>, ghost taken: seq<bool>)
      requires Valid() && (smtp.connection ==> smtp.now.mail.Some? && smtp.now.accepted == [])
      modifies smtp
      ensures Valid() && old(smtp.trace) <= smtp.trace
      ensures |taken| == |Everyone()| && bad == Picked(Everyone(), taken, false)
      ensures smtp.connection ==> old(smtp.connection) && smtp.now.mail == old(smtp.now.mail)
      ensures smtp.connection ==> smtp.now.accepted == Picked(Everyone(), taken, true)
    {
      hide Picked, Run, Trusted, Consistent;
      ghost var t1, t2, t3;
      var bad1, bad2, bad3;
      bad1, t1 := OfferRecipients(book.to);
      bad2, t2 := OfferRecipients(book.cc);
      bad3, t3 := OfferRecipients(book.bcc);
      bad := bad1 + bad2 + bad3;
      taken := t1 + t2 + t3;
      PickedConcat(book.to, t1, book.cc, t2);
      PickedConcat(book.to + book.cc, t1 + t2, book.bcc, t3);
    }

    /** The address is asked for in UTF-8 and the server did not announce the extension. */
    ghost predicate NoExtension()
      reads smtp
    {
      cfg.smtpUtf8 && (smtp.serverCaps.None? || "SMTPUTF8" !in smtp.serverCaps.value)
    }

    /** The last thing said on the connection, if it is still up, was the sender, and the server did not take it. */
    ghost predicate SenderRefused(from: bytes)
      reads smtp
    {
      smtp.connection && OneLine(from) ==>
        && smtp.trace != [] && smtp.trace[|smtp.trace| - 1] == Sent(MailFrom(from), smtp.lastReply)
        && smtp.lastReply.code != 250
    }

    /** The last thing said, if the connection is still up, was a message that the server did not take. */
    ghost predicate MessageRefused(before: seq<Event>, message: bytes)
      reads smtp
    {
      smtp.connection ==> exists k :: |before| <= k <= |smtp.trace| && Refused(message, smtp.trace[k..])
    }

    /** The start of `smtpSend`: connection, extension check, XCLIENT and MAIL. */
    method StartTransaction(from: bytes) returns (failure: Option<Outcome>)
      requires Valid()
      modifies smtp, smtp.network
      ensures Valid() && old(smtp.trace) <= smtp.trace
      ensures failure.None? ==> smtp.connection && smtp.now.mail == Some(from) && smtp.now.accepted == []
      ensures failure.Some? ==> failure.value in {ConnectFailed, NoSmtpUtf8, FromFailed}
      ensures failure == Some(ConnectFailed) ==> Unlucky(old(smtp.trace), smtp.trace)
      ensures failure == Some(NoSmtpUtf8) ==> NoExtension()
      ensures failure == Some(FromFailed) ==> SenderRefused(from)
      ensures failure.None? && cfg.smtpUtf8 ==>
        smtp.serverCaps.Some? && "SMTPUTF8" in smtp.serverCaps.value
    {
      ghost var via, since;
      var ready;
      ready, via, since := SmtpConnect();
      if !ready {
        return Some(ConnectFailed);
      }
      if cfg.smtpUtf8 && !Offers("SMTPUTF8") {
        return Some(NoSmtpUtf8);
      }
      if cfg.sendXClient {
        var sent := smtp.XClient();
      }
      var started := smtp.Mail(from);
      if !started {
        return Some(FromFailed);
      }
      return None;
    }

    /** The end of `smtpSend`: reset the transaction or leave. */
    method EndTransaction()
      requires Valid()
      modifies smtp
      ensures Valid() && old(smtp.trace) <= smtp.trace
      ensures !cfg.keepAlive ==> !smtp.connection
      ensures !cfg.keepAlive && old(smtp.connection) ==>
        smtp.trace == old(smtp.trace) + [Closed]
        || smtp.trace == old(smtp.trace) + [Sent(Command.Quit, smtp.lastReply), Closed]
      ensures cfg.keepAlive && smtp.connection ==> smtp.trace == old(smtp.trace) + [Sent(Rset, smtp.lastReply)]
    {
      if cfg.keepAlive {
        var reset := smtp.Reset();
      } else {
        smtp.Quit();
        smtp.Close();
      }
    }

    /** `PHPMailer::smtpSend`. `accepted` are the recipients the server took, in order. DATA is attempted exactly when
        there is one, because the recipient index counts every RCPT once; and what is reported as sent was delivered,
        whole, from the sender to exactly these recipients. The invariant makes every run legal. */
    method SmtpSend(from: bytes, message: bytes) returns (r: Outcome, ghost accepted: seq<bytes>, dataTried: bool)
      requires Valid()
      modifies smtp, smtp.network
      ensures Valid() && old(smtp.trace) <= smtp.trace
      ensures dataTried <==> accepted != []
      ensures r.Delivered? ==> accepted == Addresses(Everyone())
      ensures r.RecipientsFailed? ==> r.bad != [] && exists taken ::
        |taken| == |Everyone()| && accepted == Picked(Everyone(), taken, true) && r.bad == Picked(Everyone(), taken, false)
      ensures (r.Delivered? || r.RecipientsFailed?) && accepted != [] ==>
        Delivers(smtp.policy, old(smtp.trace), smtp.trace, from, accepted, message)
      ensures (r.Delivered? || r.RecipientsFailed?) && !cfg.keepAlive ==> !smtp.connection
      ensures r.ConnectFailed? ==> Unlucky(old(smtp.trace), smtp.trace)
      ensures r.NoSmtpUtf8? ==> NoExtension()
      ensures r.FromFailed? ==> SenderRefused(from)
      ensures r.DataNotAccepted? ==> accepted != [] && MessageRefused(old(smtp.trace), message)
    {
      hide Unlucky, SenderRefused, NoExtension, Refused, Delivers, Indexed, ReplyToDistinct, Run, Trusted, Picked;
      accepted, dataTried := [], false;
      var failure := StartTransaction(from);
      if failure.Some? {
        return failure.value, accepted, dataTried;
      }
      var bad;
      ghost var taken;
      bad, taken := OfferAll();
      IndexFacts(book.Contents());
      PickedAll(Everyone(), taken);
      accepted := Picked(Everyone(), taken, true);
      if |book.allRecipients| > |bad| {
        dataTried := true;
        ghost var before := smtp.trace;
        var sent := smtp.Data(message);
        if !sent {
          return DataNotAccepted, accepted, dataTried;
        }
        DeliversLater(smtp.policy, before, smtp.trace, old(smtp.trace), smtp.trace, from, accepted, message);
      }
      ghost var after := smtp.trace;
      EndTransaction();
      if dataTried {
        DeliversLater(smtp.policy, old(smtp.trace), after, old(smtp.trace), smtp.trace, from, accepted, message);
      }
      r := if bad == [] then Delivered else RecipientsFailed(bad);
    }
  }
}
