/**
  The driver of one TLS connection: ciphertext goes through the TLS pump, what it decrypts
  goes to the same parser as on a plain connection, and answers go back through the pump.
*/
module SecureServer {
  import opened Common
  import opened Text
  import opened Requests
  import opened Parsing
  import opened Grammar
  import Server
  import Tls
  import TlsProgress

  datatype Https = Https(ssl: Tls.Ssl<char>, conn: Server.Conn)

  /** Ciphertext arriving, with what a handler would answer to a request it completes, or a write completion. */
  datatype Event = Arrived(ciphertext: string, reply: string) | Written

  /**
    A new connection. Without an SSL object it is shut down at once and its messages are
    dropped, as by a pump in the error state.
  */
  function Opened(hasSsl: bool, script: Tls.Script<char>): Https {
    var ssl := Tls.Opened(hasSsl, script);
    Https(if hasSsl then ssl else ssl.(shutdown := true), Server.OPENED)
  }

  /** What is sent after a message: nothing, the handler's answer, or the error reply. */
  function Reply(before: Server.Conn, after: Server.Conn, reply: string): string
    requires before.events <= after.events
  {
    var events := after.events[|before.events|..];
    if events == [] then "" else if events[0].Sent? then events[0].bytes else reply
  }

  function ReadFrom(h: Https, ciphertext: string): (ssl: Tls.Ssl<char>)
    ensures h.ssl.decrypted <= ssl.decrypted
  {
    Tls.NextDecrypts(h.ssl, Tls.Read(ciphertext));
    Tls.Next(h.ssl, Tls.Read(ciphertext))
  }

  /** What a read decrypted. */
  function Plain(h: Https, ciphertext: string): (plain: string)
    ensures ReadFrom(h, ciphertext).decrypted == h.ssl.decrypted + plain
  {
    ReadFrom(h, ciphertext).decrypted[|h.ssl.decrypted|..]
  }

  /** Parsing needs an established connection and decrypted bytes; the ones of a failed read stay unparsed. */
  predicate Parses(h: Https, ciphertext: string) {
    ReadFrom(h, ciphertext).state == Tls.Established && h.conn.m.Plus(Plain(h, ciphertext)).input != ""
  }

  /** `onMessage` with `useSSL_` */
  function AfterMessage(h: Https, max: nat, ciphertext: string, reply: string): (h': Https)
    requires h.conn.m.state != GotAll
    ensures h'.conn.m.state != GotAll
  {
    var ssl, plain := ReadFrom(h, ciphertext), Plain(h, ciphertext);
    if !Parses(h, ciphertext) then Https(ssl, h.conn.(m := h.conn.m.Plus(plain)))
    else
      var conn := Server.AfterMessage(h.conn, max, plain);
      Https(Tls.Next(ssl, Tls.Send(Reply(h.conn, conn, reply))), conn)
  }

  function AfterEvent(h: Https, max: nat, e: Event): (h': Https)
    requires h.conn.m.state != GotAll
    ensures h'.conn.m.state != GotAll
  {
    match e
    case Arrived(ciphertext, reply) => AfterMessage(h, max, ciphertext, reply)
    case Written => h.(ssl := Tls.Next(h.ssl, Tls.WriteComplete))
  }

  function Run(h: Https, max: nat, events: seq<Event>): (h': Https)
    requires h.conn.m.state != GotAll
    ensures h'.conn.m.state != GotAll
    decreases |events|
  {
    if events == [] || h.conn.aborted then h else Run(AfterEvent(h, max, events[0]), max, events[1..])
  }

  // ---- requests ----------------------------------------------------------------------------

  /** One event keeps the account of the decrypted stream. */
  lemma NextAccounts(h: Https, max: nat, cuts: seq<Server.Cut>, text: string, msgs: seq<Message>, read: string,
                     e: Event)
      returns (cuts': seq<Server.Cut>, text': string, msgs': seq<Message>, read': string)
    requires Server.Account(h.conn, max, h.ssl.decrypted, cuts, text, msgs, read)
    ensures var h' := AfterEvent(h, max, e);
      Server.Account(h'.conn, max, h'.ssl.decrypted, cuts', text', msgs', read')
  {
    cuts', text', msgs', read' := cuts, text, msgs, read;
    if e.Written? {
      Tls.NextDecrypts(h.ssl, Tls.WriteComplete);
    } else {
      var ssl, plain := ReadFrom(h, e.ciphertext), Plain(h, e.ciphertext);
      if Parses(h, e.ciphertext) {
        var conn := Server.AfterMessage(h.conn, max, plain);
        Tls.NextDecrypts(ssl, Tls.Send(Reply(h.conn, conn, e.reply)));
        cuts', text', msgs', read' :=
          Server.OnMessageAccounts(h.conn, max, h.ssl.decrypted, cuts, text, msgs, read, plain);
      } else {
        Server.ArriveAccounts(h.conn, max, h.ssl.decrypted, cuts, text, msgs, read, plain);
      }
    }
  }

  lemma {:induction false} RunAccounts(h: Https, max: nat, cuts: seq<Server.Cut>, text: string,
                                       msgs: seq<Message>, read: string, events: seq<Event>)
      returns (cuts': seq<Server.Cut>, text': string, msgs': seq<Message>, read': string)
    requires Server.Account(h.conn, max, h.ssl.decrypted, cuts, text, msgs, read)
    ensures var h' := Run(h, max, events);
      Server.Account(h'.conn, max, h'.ssl.decrypted, cuts', text', msgs', read')
    decreases |events|
  {
    cuts', text', msgs', read' := cuts, text, msgs, read;
    if events != [] && !h.conn.aborted {
      cuts', text', msgs', read' := NextAccounts(h, max, cuts, text, msgs, read, events[0]);
      cuts', text', msgs', read' :=
        RunAccounts(AfterEvent(h, max, events[0]), max, cuts', text', msgs', read', events[1..]);
    }
  }

  lemma NextSalvaged(h: Https, max: nat, e: Event)
    requires Server.Salvaged(h.conn, max, h.ssl.decrypted)
    ensures var h' := AfterEvent(h, max, e); Server.Salvaged(h'.conn, max, h'.ssl.decrypted)
  {
    if e.Written? {
      Tls.NextDecrypts(h.ssl, Tls.WriteComplete);
    } else {
      var ssl, plain := ReadFrom(h, e.ciphertext), Plain(h, e.ciphertext);
      if Parses(h, e.ciphertext) {
        Tls.NextDecrypts(ssl, Tls.Send(Reply(h.conn, Server.AfterMessage(h.conn, max, plain), e.reply)));
        Server.OnMessageSalvaged(h.conn, max, h.ssl.decrypted, plain);
      } else {
        Server.ArriveSalvaged(h.conn, max, h.ssl.decrypted, plain);
      }
    }
  }

  lemma {:induction false} RunSalvaged(h: Https, max: nat, events: seq<Event>)
    requires Server.Salvaged(h.conn, max, h.ssl.decrypted)
    ensures var h' := Run(h, max, events); Server.Salvaged(h'.conn, max, h'.ssl.decrypted)
    decreases |events|
  {
    if events != [] && !h.conn.aborted {
      NextSalvaged(h, max, events[0]);
      RunSalvaged(AfterEvent(h, max, events[0]), max, events[1..]);
    }
  }

  /**
    For every cut of the ciphertext, every behaviour of OpenSSL and every answer, errors and
    what follows them included: the requests handled over TLS, and then those that can still
    be salvaged from the buffer, are exactly those salvaged from the decrypted stream, in order.
    Without an error they are its requests.
  */
  lemma SecureRunIsStream(hasSsl: bool, script: Tls.Script<char>, max: nat, events: seq<Event>)
    ensures var h := Run(Opened(hasSsl, script), max, events);
      && Server.Salvage(Start(h.ssl.decrypted), max)
        == Server.Dispatched(h.conn.events) + Server.Salvage(h.conn.m, max)
      && (Server.Errors(h.conn.events) == 0 ==>
            Server.Stream(h.ssl.decrypted, max)
              == Server.Dispatched(h.conn.events) + Server.Waiting(h.conn.m, max))
  {
    var h := Run(Opened(hasSsl, script), max, events);
    Server.OpenedSalvaged(max);
    RunSalvaged(Opened(hasSsl, script), max, events);
    Server.SalvagedNow(h.conn, max, h.ssl.decrypted);
    Server.OpenedAccounts(max);
    var cuts, text, msgs, read := RunAccounts(Opened(hasSsl, script), max, [], "", [], "", events);
    Server.WithoutErrors(h.conn, max, h.ssl.decrypted, cuts, text, msgs, read);
  }

  // ---- answers -----------------------------------------------------------------------------

  function AnswerTo(h: Https, max: nat, e: Event): string
    requires h.conn.m.state != GotAll
  {
    if e.Written? || !Parses(h, e.ciphertext) then ""
    else Reply(h.conn, Server.AfterMessage(h.conn, max, Plain(h, e.ciphertext)), e.reply)
  }

  /** All answers of a run, in order. */
  function Answers(h: Https, max: nat, events: seq<Event>): string
    requires h.conn.m.state != GotAll
    decreases |events|
  {
    if events == [] || h.conn.aborted then ""
    else AnswerTo(h, max, events[0]) + Answers(AfterEvent(h, max, events[0]), max, events[1..])
  }

  /** What a run does to the pump. */
  function Pumped(h: Https, max: nat, events: seq<Event>): seq<Tls.Event<char>>
    requires h.conn.m.state != GotAll
    decreases |events|
  {
    if events == [] || h.conn.aborted then []
    else
      var rest := Pumped(AfterEvent(h, max, events[0]), max, events[1..]);
      if events[0].Written? then [Tls.WriteComplete] + rest
      else if !Parses(h, events[0].ciphertext) then [Tls.Read(events[0].ciphertext)] + rest
      else [Tls.Read(events[0].ciphertext)] + ([Tls.Send(AnswerTo(h, max, events[0]))] + rest)
  }

  ghost predicate Fed(s: Tls.Ssl<char>) {
    Tls.Inbound(s, s.retrieved + s.tcp)
  }

  lemma NextFed(s: Tls.Ssl<char>, e: Tls.Event<char>)
    requires Fed(s)
    ensures Fed(Tls.Next(s, e))
  {
    Tls.NextInbound(s, e, s.retrieved + s.tcp);
  }

  lemma PumpOnce(s: Tls.Ssl<char>, e: Tls.Event<char>, rest: seq<Tls.Event<char>>)
    ensures Tls.Run(s, [e] + rest) == Tls.Run(Tls.Next(s, e), rest)
    ensures Tls.AllSent(s, [e] + rest)
      == (if e.Send? && s.hasSsl && s.state == Tls.Established then e.data else "") + Tls.AllSent(Tls.Next(s, e), rest)
  {
    assert ([e] + rest)[1..] == rest;
  }

  /** A run is a run of the pump, which is sent exactly the answers, each while it is established. */
  lemma {:induction false} RunIsPumped(h: Https, max: nat, events: seq<Event>)
    requires h.conn.m.state != GotAll && Fed(h.ssl)
    ensures Tls.Run(h.ssl, Pumped(h, max, events)) == Run(h, max, events).ssl
    ensures Tls.AllSent(h.ssl, Pumped(h, max, events)) == Answers(h, max, events)
    decreases |events|
  {
    if events != [] && !h.conn.aborted {
      var e, h' := events[0], AfterEvent(h, max, events[0]);
      var rest := Pumped(h', max, events[1..]);
      if e.Written? {
        NextFed(h.ssl, Tls.WriteComplete);
        PumpOnce(h.ssl, Tls.WriteComplete, rest);
      } else {
        var answer := AnswerTo(h, max, e);
        NextFed(h.ssl, Tls.Read(e.ciphertext));
        NextFed(ReadFrom(h, e.ciphertext), Tls.Send(answer));
        PumpOnce(h.ssl, Tls.Read(e.ciphertext), rest);
        PumpOnce(h.ssl, Tls.Read(e.ciphertext), [Tls.Send(answer)] + rest);
        PumpOnce(ReadFrom(h, e.ciphertext), Tls.Send(answer), rest);
      }
      RunIsPumped(h', max, events[1..]);
    }
  }

  /** The decrypted stream is exactly the data that OpenSSL has returned so far, each byte once. */
  lemma SecureStreamIsData(hasSsl: bool, script: Tls.Script<char>, max: nat, events: seq<Event>) returns (n: nat)
    ensures var h := Run(Opened(hasSsl, script), max, events);
      && n <= |script.readings| && h.ssl.script.readings == script.readings[n..]
      && Server.Salvage(Start(TlsProgress.DataOf(script.readings[..n])), max)
        == Server.Dispatched(h.conn.events) + Server.Salvage(h.conn.m, max)
  {
    var h := Opened(hasSsl, script);
    RunIsPumped(h, max, events);
    SecureRunIsStream(hasSsl, script, max, events);
    n := TlsProgress.RunDecryptsExactly(h.ssl, Pumped(h, max, events));
    assert [] + TlsProgress.DataOf(script.readings[..n]) == TlsProgress.DataOf(script.readings[..n]);
  }

  /** Over every run all ciphertext goes out in order. */
  lemma RunOnWire(hasSsl: bool, script: Tls.Script<char>, max: nat, events: seq<Event>)
    ensures var h := Run(Opened(hasSsl, script), max, events); h.ssl.wire == h.ssl.produced
  {
    var h := Opened(hasSsl, script);
    RunIsPumped(h, max, events);
    Tls.CiphertextSent(hasSsl, script, []);
    Tls.RunWired(h.ssl, Pumped(h, max, events));
  }

  /**
    If every answer finds the pump's queue empty and none is given up, then the plaintext
    accepted or queued is exactly the answers, in the order of the requests.
  */
  lemma AnswersInOrder(hasSsl: bool, script: Tls.Script<char>, max: nat, events: seq<Event>)
    requires Tls.QueueEmptyAtSends(Opened(hasSsl, script).ssl, Pumped(Opened(hasSsl, script), max, events))
    ensures var h := Run(Opened(hasSsl, script), max, events);
      h.ssl.intact ==> Tls.Stream(h.ssl) == Answers(Opened(hasSsl, script), max, events)
  {
    var h := Opened(hasSsl, script);
    RunIsPumped(h, max, events);
    Tls.FifoRun(h.ssl, Pumped(h, max, events));
    NothingBefore(Answers(h, max, events));
  }

  lemma NothingBefore(answers: string)
    ensures [] + [] + answers == answers
  {}

  // ---- one message -----------------------------------------------------------------------

  /**
    A message handles exactly the first request that waits in the decrypted stream, if the
    connection is established after the read, and otherwise none.
  */
  lemma OnePerMessage(h: Https, max: nat, cuts: seq<Server.Cut>, text: string, msgs: seq<Message>, read: string,
                      ciphertext: string, reply: string)
    requires Server.Account(h.conn, max, h.ssl.decrypted, cuts, text, msgs, read)
    ensures var h' := AfterMessage(h, max, ciphertext, reply);
      var waiting := Server.Waiting(h.conn.m.Plus(Plain(h, ciphertext)), max);
      Server.Dispatched(h'.conn.events) == Server.Dispatched(h.conn.events)
        + (if ReadFrom(h, ciphertext).state == Tls.Established && waiting != [] then [waiting[0]] else [])
  {
    var m := h.conn.m.Plus(Plain(h, ciphertext));
    Server.OnePerMessage(h.conn, max, Plain(h, ciphertext));
    assert Server.Dispatched(h.conn.events) + [] == Server.Dispatched(h.conn.events);
    Server.ArriveAccounts(h.conn, max, h.ssl.decrypted, cuts, text, msgs, read, Plain(h, ciphertext));
    if m.input == "" {
      NothingWaits(m, max);
    }
  }

  lemma NothingWaits(m: Machine, max: nat)
    requires m.state != GotAll && m.input == "" && (Aborts(m) || Server.Good(m, max))
    ensures Server.Waiting(m, max) == []
  {}

  /** The answer to a message is the handler's if a request was handled, and what was sent for an error. */
  lemma AnswerIs(h: Https, max: nat, e: Event)
    requires h.conn.m.state != GotAll && e.Arrived?
    ensures var before, after := h.conn.events, AfterEvent(h, max, e).conn.events;
      var answer := AnswerTo(h, max, e);
      || (after == before && answer == "")
      || (|after| == |before| + 1 && after[|before|].Handled? && answer == e.reply)
      || (|after| == |before| + 2 && after[|before|] == Server.Sent(answer)
          && answer in {Server.HTTP400, Server.HTTP413})
  {}

  // ---- the imperative driver ------------------------------------------------------------

  class SecureConnection {
    const ssl: Tls.SslConnection<char>
    const http: Server.Connection

    ghost function Abs(): Https
      reads this, ssl, ssl.openssl, http, http.context, http.context.request, http.input
    {
      Https(ssl.Abs(), http.Abs())
    }

    constructor (hasSsl: bool, script: Tls.Script<char>, maxBodyBytes: nat)
      requires maxBodyBytes < UINT64_LIMIT
      ensures Abs() == Opened(hasSsl, script) && http.context.maxBodyBytes == maxBodyBytes
      ensures fresh(ssl) && fresh(ssl.openssl)
      ensures fresh(http) && fresh(http.context) && fresh(http.context.request) && fresh(http.input)
    {
      ssl := new Tls.SslConnection<char>(hasSsl, script);
      http := new Server.Connection(maxBodyBytes);
      new;
      ssl.StartHandshake();
      if !hasSsl {
        ssl.shutdown := true;
      }
    }

    /** Called as long as the process lives. */
    method OnMessage(ciphertext: string, reply: string)
      requires http.context.state != GotAll && !http.aborted
      modifies ssl, ssl.openssl, http, http.context, http.context.request, http.input
      ensures http.context.state != GotAll
      ensures Abs() == AfterEvent(old(Abs()), http.context.maxBodyBytes, Arrived(ciphertext, reply))
    {
      var seen := |ssl.decrypted|;
      ssl.OnRead(ciphertext);
      assert ssl.Abs() == ReadFrom(old(Abs()), ciphertext);
      var plain := ssl.decrypted[seen..];
      if ssl.state != Tls.Established || http.input.data + plain == "" {
        http.input.Append(plain);
        return;
      }
      var handled := |http.events|;
      http.OnMessage(plain, false);
      if http.aborted || |http.events| == handled {
        return;
      }
      var event := http.events[handled];
      if event.Sent? {
        ssl.Send(event.bytes);
      } else {
        ssl.Send(reply);
      }
    }
  }
}
