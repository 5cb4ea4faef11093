/**
  What the TLS pump achieves over its runs: which data it decrypts, when the handshake ends,
  when the queue of plaintext is written, and that plaintext is given up only after a refusal.
*/
module TlsProgress {
  import opened Common
  import opened Tls

  // ---- which data is decrypted ------------------------------------------------------------------

  /** The bytes that one call of `SSL_read` returns. */
  function BytesOf<T>(answer: ReadAnswer<T>): seq<T> {
    if answer.Data? then answer.bytes[..Min(|answer.bytes|, BUFFER_SIZE)] else []
  }

  /** The bytes of some calls, in order, each once. */
  function DataOf<T>(readings: seq<ReadAnswer<T>>): seq<T> {
    if readings == [] then [] else BytesOf(readings[0]) + DataOf(readings[1..])
  }

  /** The first `n` answers are data, and the one after them, if there is one, is not. */
  ghost predicate DataRun<T>(readings: seq<ReadAnswer<T>>, n: nat) {
    && n <= |readings|
    && (forall i | 0 <= i < n :: BytesOf(readings[i]) != [])
    && (n < |readings| ==> BytesOf(readings[n]) == [])
  }

  /** From `s` to `s'` the first `n` answers of `SSL_read` were consumed, and all their bytes decrypted. */
  ghost predicate Decrypted<T>(s: Ssl<T>, s': Ssl<T>, n: nat) {
    && n <= |s.script.readings| && s'.script.readings == s.script.readings[n..]
    && s'.decrypted == s.decrypted + DataOf(s.script.readings[..n])
  }

  lemma {:induction false} DataOfAppend<T>(a: seq<ReadAnswer<T>>, b: seq<ReadAnswer<T>>)
    ensures DataOf(a + b) == DataOf(a) + DataOf(b)
    decreases |a|
  {
    if a == [] {
      assert a + b == b && DataOf(a) + DataOf(b) == DataOf(b);
    } else {
      assert (a + b)[1..] == a[1..] + b;
      DataOfAppend(a[1..], b);
      Assoc(BytesOf(a[0]), DataOf(a[1..]), DataOf(b));
    }
  }

  lemma DecryptedTrans<T>(a: Ssl<T>, b: Ssl<T>, c: Ssl<T>, m: nat, n: nat)
    requires Decrypted(a, b, m) && Decrypted(b, c, n)
    ensures Decrypted(a, c, m + n)
  {
    var readings := a.script.readings;
    assert readings[..m + n] == readings[..m] + readings[m..][..n];
    DataOfAppend(readings[..m], readings[m..][..n]);
    Assoc(a.decrypted, DataOf(readings[..m]), DataOf(readings[m..][..n]));
  }

  lemma NothingDecrypted<T>(s: Ssl<T>, s': Ssl<T>)
    requires s'.script.readings == s.script.readings && s'.decrypted == s.decrypted
    ensures Decrypted(s, s', 0)
  {
    assert s.script.readings[..0] == [] && s.decrypted + [] == s.decrypted;
  }

  lemma OneReading<T>(s: Ssl<T>, s': Ssl<T>)
    requires s.script.readings != [] && s'.script.readings == s.script.readings[1..]
    requires s'.decrypted == s.decrypted + BytesOf(s.script.readings[0])
    ensures Decrypted(s, s', 1)
  {
    var first := s.script.readings[..1];
    assert first[0] == s.script.readings[0] && first[1..] == [];
    assert BytesOf(first[0]) + [] == BytesOf(first[0]);
  }

  /** The read loop decrypts all data up to the first other answer, which it consumes. */
  lemma {:induction false} ReadLoopIs<T>(s: Ssl<T>) returns (n: nat, used: nat)
    ensures DataRun(s.script.readings, n) && used == Min(n + 1, |s.script.readings|)
    ensures Decrypted(s, ReadLoop(s), used)
    decreases |s.script.readings|
  {
    n, used := 0, 0;
    var readings := s.script.readings;
    if readings == [] {
      NothingDecrypted(s, ReadLoop(s));
    } else if BytesOf(readings[0]) == [] {
      used := 1;
      ReadStops(s);
    } else {
      var s1 := FirstRead(s);
      n, used := ReadLoopIs(s1);
      DecryptedTrans(s, s1, ReadLoop(s1), 1, used);
      n, used := n + 1, used + 1;
    }
  }

  lemma ReadStops<T>(s: Ssl<T>)
    requires s.script.readings != [] && BytesOf(s.script.readings[0]) == []
    ensures Decrypted(s, ReadLoop(s), 1)
  {
    assert s.decrypted + [] == s.decrypted;
    OneReading(s, ReadLoop(s));
  }

  /** The state after the first call, if it returns data. */
  lemma FirstRead<T>(s: Ssl<T>) returns (s1: Ssl<T>)
    requires s.script.readings != [] && BytesOf(s.script.readings[0]) != []
    ensures s1.script.readings == s.script.readings[1..] && Decrypted(s, s1, 1) && ReadLoop(s1) == ReadLoop(s)
  {
    s1 := NextRead(s).1.(decrypted := s.decrypted + BytesOf(s.script.readings[0]));
    OneReading(s, s1);
    ReadLoopStep(s);
  }

  lemma ReadLoopStep<T>(s: Ssl<T>)
    requires s.script.readings != [] && BytesOf(s.script.readings[0]) != []
    ensures ReadLoop(s) == ReadLoop(NextRead(s).1.(decrypted := s.decrypted + BytesOf(s.script.readings[0])))
  {}

  /**
    A read that asks decrypts exactly the data that OpenSSL returns before its first other
    answer, in order, each byte once; any other read decrypts nothing.
  */
  lemma ReadDecryptsExactly<T>(s: Ssl<T>, chunk: seq<T>) returns (n: nat)
    ensures Asks(s, chunk) ==> DataRun(s.script.readings, n)
    ensures Decrypted(s, OnRead(s, chunk), if Asks(s, chunk) then Min(n + 1, |s.script.readings|) else 0)
  {
    var s0 := s.(tcp := s.tcp + chunk);
    FeedOkIff(s0, s0.tcp);
    FeedAll(s0, s0.tcp);
    FeedDecrypts(s0, s0.tcp);
    n := 0;
    var s1 := Feed(s0, s0.tcp).0;
    var s2 := s1.(tcp := [], retrieved := s1.retrieved + s1.tcp);
    if Asks(s, chunk) {
      var used: nat;
      n, used := ReadLoopIs(s2);
      DrainLoopDecrypts(Flush(ReadLoop(s2)), 0);
      SameDecrypted(s2, ReadLoop(s2), s, OnRead(s, chunk), used);
    } else {
      HandshakeDecryptsNothing(s2);
      NothingDecrypted(s, OnRead(s, chunk));
    }
  }

  lemma SameDecrypted<T>(a: Ssl<T>, a': Ssl<T>, b: Ssl<T>, b': Ssl<T>, n: nat)
    requires Decrypted(a, a', n)
    requires b.script.readings == a.script.readings && b.decrypted == a.decrypted
    requires b'.script.readings == a'.script.readings && b'.decrypted == a'.decrypted
    ensures Decrypted(b, b', n)
  {}

  lemma HandshakeDecryptsNothing<T>(s: Ssl<T>)
    ensures Handshake(s).decrypted == s.decrypted && Handshake(s).script.readings == s.script.readings
  {}

  lemma SendDecryptsNothing<T>(s: Ssl<T>, e: Event<T>)
    requires !e.Read?
    ensures Decrypted(s, Next(s, e), 0)
  {
    NextKeepsReadings(s, e);
    NothingDecrypted(s, Next(s, e));
  }

  lemma NextKeepsReadings<T>(s: Ssl<T>, e: Event<T>)
    requires !e.Read?
    ensures Next(s, e).decrypted == s.decrypted && Next(s, e).script.readings == s.script.readings
  {
    if e.Send? {
      SendLoopDecrypts(s, e.data);
    } else {
      DrainLoopDecrypts(Flush(s), 0);
      HandshakeDecryptsNothing(Flush(s));
    }
  }

  lemma {:induction false} RunDecryptsExactly<T>(s: Ssl<T>, events: seq<Event<T>>) returns (n: nat)
    ensures Decrypted(s, Run(s, events), n)
    decreases |events|
  {
    n := 0;
    if events == [] {
      NothingDecrypted(s, s);
    } else {
      var e, m := events[0], 0;
      if e.Read? {
        var k := ReadDecryptsExactly(s, e.chunk);
        m := if Asks(s, e.chunk) then Min(k + 1, |s.script.readings|) else 0;
      } else {
        SendDecryptsNothing(s, e);
      }
      n := RunDecryptsExactly(Next(s, e), events[1..]);
      DecryptedTrans(s, Next(s, e), Run(s, events), m, n);
      n := m + n;
    }
  }

  /** Over every run: decrypted is exactly the data that OpenSSL has returned so far, in order, each byte once. */
  lemma DecryptedIsData<T>(hasSsl: bool, script: Script<T>, events: seq<Event<T>>) returns (n: nat)
    ensures var s := Run(Opened(hasSsl, script), events);
      && n <= |script.readings| && s.script.readings == script.readings[n..]
      && s.decrypted == DataOf(script.readings[..n])
  {
    n := RunDecryptsExactly(Opened(hasSsl, script), events);
    assert [] + DataOf(script.readings[..n]) == DataOf(script.readings[..n]);
  }

  // ---- the handshake --------------------------------------------------------------------------

  /** What the next step of the handshake will be answered. */
  function NextAnswer<T>(s: Ssl<T>): HandshakeAnswer {
    if s.script.handshakes == [] then HandshakeWant else s.script.handshakes[0]
  }

  /** Whether an event makes a step of the handshake. */
  ghost predicate StepsHandshake<T>(s: Ssl<T>, e: Event<T>) {
    && s.hasSsl && s.state == Handshaking
    && (e.WriteComplete? || (e.Read? && WholeWrites(s.script.bioWrites, |s.tcp + e.chunk|)))
  }

  /** The connection becomes established exactly by a step that completes; a failed one shuts down and waits. */
  lemma EstablishedIff<T>(s: Ssl<T>, e: Event<T>)
    requires s.state == Handshaking
    ensures Next(s, e).state == Established <==> StepsHandshake(s, e) && NextAnswer(s) == Complete
    ensures StepsHandshake(s, e) && NextAnswer(s) != Complete ==> Next(s, e).state == Handshaking
    ensures StepsHandshake(s, e) ==> Next(s, e).shutdown == (s.shutdown || NextAnswer(s) == HandshakeFatal)
  {
    if e.Read? {
      var s0 := s.(tcp := s.tcp + e.chunk);
      FeedOkIff(s0, s0.tcp);
      FeedAll(s0, s0.tcp);
      FeedShutsDown(s0, s0.tcp);
    }
  }

  lemma {:induction false} FeedShutsDown<T>(s: Ssl<T>, data: seq<T>)
    ensures var (s', ok) := Feed(s, data);
      && s'.shutdown == (s.shutdown || !ok) && s'.script.handshakes == s.script.handshakes
    decreases |data|
  {
    if data != [] {
      var chunk := Min(|data|, INT_MAX);
      var (w, s1) := NextBioWrite(s, chunk);
      if w == chunk {
        FeedShutsDown(s1.(fed := s1.fed + data[..chunk]), data[chunk..]);
      }
    }
  }

  // ---- draining succeeds when OpenSSL accepts ---------------------------------------------------

  /** The next answers accept `n` bytes in at most `rounds` writes. */
  predicate Covers(writes: seq<WriteAnswer>, n: nat, rounds: nat) {
    || n == 0
    || (rounds > 0 && writes != [] && writes[0].Accept?
        && Covers(writes[1..], n - Taken(writes[0].n, Min(n, INT_MAX)), rounds - 1))
  }

  /** From `s` to `s'` the whole queue was written if and only if `covered`. */
  ghost predicate WrittenIff<T>(s: Ssl<T>, s': Ssl<T>, covered: bool) {
    && (s'.accepted == s.accepted + s.pending <==> covered)
    && (covered ==> s'.pending == [] && s'.intact == s.intact)
  }

  /** Draining writes the whole queue if and only if OpenSSL accepts it within the spin limit. */
  lemma {:induction false} DrainLoopWholeIff<T>(s: Ssl<T>, spins: nat)
    requires spins <= MAX_SPINS
    ensures WrittenIff(s, DrainLoop(s, spins), Covers(s.script.writes, |s.pending|, MAX_SPINS - spins))
    decreases MAX_SPINS - spins
  {
    if s.pending == [] {
      assert s.accepted + [] == s.accepted;
    } else if spins < MAX_SPINS && NextWrite(s).0.Accept? {
      var s2 := AfterWrite(s);
      DrainLoopWholeIff(s2, spins + 1);
      OneWritten(s, s2, DrainLoop(s2, spins + 1), Covers(s2.script.writes, |s2.pending|, MAX_SPINS - (spins + 1)));
    } else {
      SomethingLeft(s.accepted, s.pending);
    }
  }

  /** The state after a write that accepts the front of the queue. */
  function AfterWrite<T>(s: Ssl<T>): Ssl<T>
    requires s.pending != [] && NextWrite(s).0.Accept?
  {
    Flush(Moved(NextWrite(s).1, Taken(NextWrite(s).0.n, Min(|s.pending|, INT_MAX))))
  }

  lemma OneWritten<T>(s: Ssl<T>, s2: Ssl<T>, s': Ssl<T>, covered: bool)
    requires s.pending != [] && NextWrite(s).0.Accept? && s2 == AfterWrite(s) && WrittenIff(s2, s', covered)
    ensures WrittenIff(s, s', covered)
  {
    MoveHead(s.accepted, s.pending, Taken(NextWrite(s).0.n, Min(|s.pending|, INT_MAX)));
  }

  lemma SomethingLeft<T>(accepted: seq<T>, pending: seq<T>)
    requires pending != []
    ensures accepted + pending != accepted
  {
    assert |accepted + pending| > |accepted|;
  }

  /** A write completion of an established connection writes the whole queue iff OpenSSL accepts it. */
  lemma WriteCompletionDrainsIff<T>(s: Ssl<T>)
    requires s.hasSsl && s.state == Established
    ensures Next(s, WriteComplete).accepted == s.accepted + s.pending
      <==> Covers(s.script.writes, |s.pending|, MAX_SPINS)
    ensures Covers(s.script.writes, |s.pending|, MAX_SPINS) ==> Next(s, WriteComplete).pending == []
  {
    DrainWholeIff(Flush(s), 0, MAX_SPINS);
  }

  /** So does a read that asks and meets no fatal answer. */
  lemma ReadDrainsIff<T>(s: Ssl<T>, chunk: seq<T>)
    requires Asks(s, chunk) && NoFatal(s.script.readings)
    ensures OnRead(s, chunk).accepted == s.accepted + s.pending
      <==> Covers(s.script.writes, |s.pending|, MAX_SPINS)
    ensures Covers(s.script.writes, |s.pending|, MAX_SPINS) ==> OnRead(s, chunk).pending == []
  {
    var s0 := s.(tcp := s.tcp + chunk);
    FeedOkIff(s0, s0.tcp);
    FeedAll(s0, s0.tcp);
    FeedPlain(s0, s0.tcp);
    FeedKeepsWrites(s0, s0.tcp);
    var s1 := Feed(s0, s0.tcp).0;
    FinishReadDrains(s1.(tcp := [], retrieved := s1.retrieved + s1.tcp), MAX_SPINS);
  }

  lemma FinishReadDrains<T>(s: Ssl<T>, rounds: nat)
    requires s.hasSsl && s.state == Established && NoFatal(s.script.readings) && rounds == MAX_SPINS
    ensures WrittenIff(s, FinishRead(s), Covers(s.script.writes, |s.pending|, rounds))
  {
    var s2 := ReadThenDrain(s);
    DrainWholeIff(s2, 0, rounds);
    SamePlainWritten(s, s2, Drain(s2), Covers(s.script.writes, |s.pending|, rounds));
  }

  lemma DrainWholeIff<T>(s: Ssl<T>, spins: nat, rounds: nat)
    requires s.hasSsl && s.state == Established && spins == 0 && rounds == MAX_SPINS
    ensures WrittenIff(s, Drain(s), Covers(s.script.writes, |s.pending|, rounds))
  {
    DrainLoopWholeIff(s, spins);
  }

  lemma ReadThenDrain<T>(s: Ssl<T>) returns (s2: Ssl<T>)
    requires s.hasSsl && s.state == Established && NoFatal(s.script.readings)
    ensures SamePlain(s, s2) && s2.script.writes == s.script.writes && FinishRead(s) == Drain(s2)
    ensures s2.state == Established
  {
    ReadLoopPlain(s);
    ReadLoopWrites(s);
    ReadLoopState(s);
    s2 := Flush(ReadLoop(s));
  }

  lemma SamePlainWritten<T>(s: Ssl<T>, s2: Ssl<T>, s': Ssl<T>, covered: bool)
    requires SamePlain(s, s2) && WrittenIff(s2, s', covered)
    ensures WrittenIff(s, s', covered)
  {}

  lemma {:induction false} FeedKeepsWrites<T>(s: Ssl<T>, data: seq<T>)
    ensures Feed(s, data).0.script.writes == s.script.writes
    ensures Feed(s, data).0.script.readings == s.script.readings
    decreases |data|
  {
    if data != [] {
      var chunk := Min(|data|, INT_MAX);
      var (w, s1) := NextBioWrite(s, chunk);
      if w == chunk {
        FeedKeepsWrites(s1.(fed := s1.fed + data[..chunk]), data[chunk..]);
      }
    }
  }

  predicate NoFatal<T>(readings: seq<ReadAnswer<T>>) {
    forall i | 0 <= i < |readings| :: !readings[i].ReadFatal?
  }

  lemma {:induction false} ReadLoopState<T>(s: Ssl<T>)
    requires NoFatal(s.script.readings)
    ensures ReadLoop(s).state == s.state
    decreases |s.script.readings|
  {
    var (answer, s1) := NextRead(s);
    if answer.Data? && answer.bytes != [] {
      ReadLoopState(s1.(decrypted := s1.decrypted + answer.bytes[..Min(|answer.bytes|, BUFFER_SIZE)]));
    }
  }

  // ---- plaintext is given up only after a refusal -------------------------------------------------

  /** OpenSSL never answers a write with a close or a fatal error, and has fewer answers than the spin limit. */
  predicate Willing(writes: seq<WriteAnswer>) {
    |writes| < MAX_SPINS && forall i | 0 <= i < |writes| :: writes[i].Accept? || writes[i].WriteWant?
  }

  /** Plaintext stays intact, and so does the willingness. */
  ghost predicate StaysIntact<T>(s: Ssl<T>, s': Ssl<T>) {
    s'.intact == s.intact && Willing(s'.script.writes)
  }

  lemma {:induction false} DrainLoopIntact<T>(s: Ssl<T>, spins: nat)
    requires Willing(s.script.writes) && spins + |s.script.writes| < MAX_SPINS
    ensures StaysIntact(s, DrainLoop(s, spins))
    decreases MAX_SPINS - spins
  {
    if s.pending != [] && NextWrite(s).0.Accept? {
      var k := Taken(NextWrite(s).0.n, Min(|s.pending|, INT_MAX));
      DrainLoopIntact(Flush(Moved(NextWrite(s).1, k)), spins + 1);
    }
  }

  lemma {:induction false} SendLoopIntact<T>(s: Ssl<T>, data: seq<T>)
    requires Willing(s.script.writes)
    ensures StaysIntact(s, SendLoop(s, data))
    decreases |data|
  {
    if data != [] {
      var (answer, s1) := NextWrite(s);
      if answer.Accept? {
        var k := Taken(answer.n, Min(|data|, INT_MAX));
        SendLoopIntact(Flush(s1.(accepted := s1.accepted + data[..k])), data[k..]);
      } else if answer.WriteWant? {
        DrainLoopIntact(Flush(s1).(pending := s1.pending + data), 0);
      }
    }
  }

  lemma ReadIntact<T>(s: Ssl<T>, chunk: seq<T>)
    requires Willing(s.script.writes)
    ensures StaysIntact(s, OnRead(s, chunk))
  {
    var s0 := s.(tcp := s.tcp + chunk);
    FeedPlain(s0, s0.tcp);
    FeedKeepsWrites(s0, s0.tcp);
    var s1 := Feed(s0, s0.tcp).0;
    FinishReadIntact(s1.(tcp := [], retrieved := s1.retrieved + s1.tcp));
  }

  lemma FinishReadIntact<T>(s: Ssl<T>)
    requires Willing(s.script.writes)
    ensures StaysIntact(s, FinishRead(s))
  {
    if s.state != Handshaking {
      ReadLoopPlain(s);
      ReadLoopWrites(s);
      DrainLoopIntact(Flush(ReadLoop(s)), 0);
    }
  }

  lemma {:induction false} ReadLoopWrites<T>(s: Ssl<T>)
    ensures ReadLoop(s).script.writes == s.script.writes
    decreases |s.script.readings|
  {
    var (answer, s1) := NextRead(s);
    if answer.Data? && answer.bytes != [] {
      ReadLoopWrites(s1.(decrypted := s1.decrypted + answer.bytes[..Min(|answer.bytes|, BUFFER_SIZE)]));
    }
  }

  lemma NextIntact<T>(s: Ssl<T>, e: Event<T>)
    requires Willing(s.script.writes)
    ensures StaysIntact(s, Next(s, e))
  {
    match e
    case Send(data) => SendLoopIntact(s, data);
    case Read(chunk) => ReadIntact(s, chunk);
    case WriteComplete => DrainLoopIntact(Flush(s), 0);
  }

  lemma {:induction false} RunIntact<T>(s: Ssl<T>, events: seq<Event<T>>)
    requires Willing(s.script.writes)
    ensures StaysIntact(s, Run(s, events))
    decreases |events|
  {
    if events != [] {
      NextIntact(s, events[0]);
      RunIntact(Next(s, events[0]), events[1..]);
    }
  }

  /** While OpenSSL is willing, no run gives up any plaintext. */
  lemma WillingIsIntact<T>(hasSsl: bool, script: Script<T>, events: seq<Event<T>>)
    requires Willing(script.writes)
    ensures Run(Opened(hasSsl, script), events).intact
  {
    RunIntact(Opened(hasSsl, script), events);
  }

  // ---- what the other answers do ------------------------------------------------------------------

  /** A fatal answer to a write ends in the error state with nothing queued, whether sending or draining. */
  lemma WriteFatalFails<T>(s: Ssl<T>, data: seq<T>)
    requires s.hasSsl && s.state == Established && s.script.writes != [] && s.script.writes[0] == WriteFatal
    ensures data != [] ==> Failed(s, Next(s, Send(data)))
    ensures s.pending != [] ==> Failed(s, Next(s, WriteComplete))
  {}

  ghost predicate Failed<T>(s: Ssl<T>, s': Ssl<T>) {
    s'.state == Error && s'.shutdown && s'.pending == [] && s'.accepted == s.accepted && !s'.intact
  }

  /** After a close notification a send gives up its data and draining gives up the queue; the state stays. */
  lemma CloseGivesUp<T>(s: Ssl<T>, data: seq<T>)
    requires s.hasSsl && s.state == Established && s.script.writes != [] && s.script.writes[0] == ZeroReturn
    ensures var sent, drained := Next(s, Send(data)), Next(s, WriteComplete);
      && sent.state == drained.state == Established
      && sent.accepted == s.accepted && sent.pending == s.pending && (data != [] ==> !sent.intact)
      && drained.accepted == s.accepted && drained.pending == [] && (s.pending != [] ==> !drained.intact)
  {}

  /** A queue that is written byte by byte is given up at the spin limit. */
  lemma {:induction false} SpinLimitFails<T>(s: Ssl<T>, spins: nat)
    requires spins <= MAX_SPINS && |s.pending| > MAX_SPINS - spins
    requires |s.script.writes| >= MAX_SPINS - spins
    requires forall i | 0 <= i < |s.script.writes| :: s.script.writes[i] == Accept(1)
    ensures DrainLoop(s, spins).state == Error && DrainLoop(s, spins).pending == []
    decreases MAX_SPINS - spins
  {
    if spins < MAX_SPINS {
      SpinLimitFails(AfterWrite(s), spins + 1);
    }
  }

  /** The read loop fails if and only if the answer that ends it is fatal. */
  lemma {:induction false} ReadLoopFailsIff<T>(s: Ssl<T>, n: nat)
    requires DataRun(s.script.readings, n) && s.state != Error
    ensures ReadLoop(s).state == Error <==> n < |s.script.readings| && s.script.readings[n] == ReadFatal
    decreases n
  {
    if n > 0 {
      var s1 := NextRead(s).1.(decrypted := s.decrypted + BytesOf(s.script.readings[0]));
      assert forall i | 0 <= i < |s1.script.readings| :: s1.script.readings[i] == s.script.readings[i + 1];
      ReadLoopStep(s);
      ReadLoopFailsIff(s1, n - 1);
    }
  }

  /** A read that asks and is answered fatally ends in the error state. */
  lemma ReadFatalFails<T>(s: Ssl<T>, chunk: seq<T>, n: nat)
    requires Asks(s, chunk) && DataRun(s.script.readings, n)
    requires n < |s.script.readings| && s.script.readings[n] == ReadFatal
    ensures OnRead(s, chunk).state == Error
  {
    var s0 := s.(tcp := s.tcp + chunk);
    FeedOkIff(s0, s0.tcp);
    FeedAll(s0, s0.tcp);
    FeedKeepsWrites(s0, s0.tcp);
    var s1 := Feed(s0, s0.tcp).0;
    ReadLoopFailsIff(s1.(tcp := [], retrieved := s1.retrieved + s1.tcp), n);
  }

  // ---- errors shut down ---------------------------------------------------------------------------

  /** From `s` to `s'` no shutdown was taken back, and an error that is new shut down. */
  ghost predicate ShutsDown<T>(s: Ssl<T>, s': Ssl<T>) {
    (s.shutdown ==> s'.shutdown) && (s'.state == Error && s.state != Error ==> s'.shutdown)
  }

  lemma {:induction false} DrainLoopShutsDown<T>(s: Ssl<T>, spins: nat)
    requires spins <= MAX_SPINS
    ensures ShutsDown(s, DrainLoop(s, spins))
    decreases MAX_SPINS - spins
  {
    if s.pending != [] && spins < MAX_SPINS && NextWrite(s).0.Accept? {
      DrainLoopShutsDown(AfterWrite(s), spins + 1);
    }
  }

  lemma {:induction false} SendLoopShutsDown<T>(s: Ssl<T>, data: seq<T>)
    ensures ShutsDown(s, SendLoop(s, data))
    decreases |data|
  {
    if data != [] {
      var (answer, s1) := NextWrite(s);
      if answer.Accept? {
        var k := Taken(answer.n, Min(|data|, INT_MAX));
        SendLoopShutsDown(Flush(s1.(accepted := s1.accepted + data[..k])), data[k..]);
      } else if answer.WriteWant? {
        DrainLoopShutsDown(Flush(s1).(pending := s1.pending + data), 0);
      }
    }
  }

  lemma {:induction false} ReadLoopShutsDown<T>(s: Ssl<T>)
    ensures ShutsDown(s, ReadLoop(s))
    decreases |s.script.readings|
  {
    var (answer, s1) := NextRead(s);
    if answer.Data? && answer.bytes != [] {
      ReadLoopShutsDown(s1.(decrypted := s1.decrypted + answer.bytes[..Min(|answer.bytes|, BUFFER_SIZE)]));
    }
  }

  lemma FinishReadShutsDown<T>(s: Ssl<T>)
    ensures ShutsDown(s, FinishRead(s))
  {
    if s.state != Handshaking {
      ReadLoopShutsDown(s);
      DrainLoopShutsDown(Flush(ReadLoop(s)), 0);
    }
  }

  /** Every event that ends in the error state has shut the connection down. */
  lemma ErrorShutsDown<T>(s: Ssl<T>, e: Event<T>)
    requires s.hasSsl
    ensures ShutsDown(s, Next(s, e))
  {
    match e
    case Send(data) => SendLoopShutsDown(s, data);
    case WriteComplete => DrainLoopShutsDown(Flush(s), 0);
    case Read(chunk) =>
      var s0 := s.(tcp := s.tcp + chunk);
      FeedAll(s0, s0.tcp);
      FeedShutsDown(s0, s0.tcp);
      var s1 := Feed(s0, s0.tcp).0;
      FinishReadShutsDown(s1.(tcp := [], retrieved := s1.retrieved + s1.tcp));
  }
}
