/** The parser's answer does not depend on how TCP cuts the byte stream into chunks. */
module Chunking {
  import opened Text
  import opened Requests
  import opened Parsing

  function Concat(chunks: seq<string>): string {
    if chunks == [] then "" else chunks[0] + Concat(chunks[1..])
  }

  /** Appends chunk after chunk, parsing each time, up to the first answer. */
  function Feed(m: Machine, max: nat, chunks: seq<string>): Result
    requires m.state != GotAll
    decreases |chunks|
  {
    if chunks == [] then Result(m, More)
    else
      var r := Parse(m.Plus(chunks[0]), max);
      if r.v == More then Feed(r.m, max, chunks[1..])
      else Result(r.m.Plus(Concat(chunks[1..])), r.v)
  }

  /** What a step does when `more` follows, given what it does without; waiting changes nothing. */
  ghost predicate Extended(m: Machine, without: Progress, with: Progress, more: string) {
    match without
    case Continue(m') => with == Continue(m'.Plus(more))
    case Stop(m', v) => if v == More then m' == m else with == Stop(m'.Plus(more), v)
  }

  /** One step sees the same thing when more bytes follow, unless it asked for more bytes. */
  lemma StepExtend(m: Machine, max: nat, more: string)
    requires m.state != GotAll
    ensures Extended(m, Step(m, max), Step(m.Plus(more), max), more)
  {
    match m.state
    case ExpectRequestLine => RequestLineExtend(m, more);
    case ExpectHeaders => HeaderExtend(m, max, more);
    case ExpectBody => BodyExtend(m, more);
  }

  lemma RequestLineExtend(m: Machine, more: string)
    ensures Extended(m, RequestLineStep(m), RequestLineStep(m.Plus(more)), more)
  {
    var e := FindCrlf(m.input);
    if e < |m.input| {
      FindCrlfStable(m.input, more);
      SliceLine(m.input, more, e);
    }
  }

  lemma HeaderExtend(m: Machine, max: nat, more: string)
    ensures Extended(m, HeaderStep(m, max), HeaderStep(m.Plus(more), max), more)
  {
    var e := FindCrlf(m.input);
    if e < |m.input| {
      FindCrlfStable(m.input, more);
      SliceLine(m.input, more, e);
    }
  }

  lemma BodyExtend(m: Machine, more: string)
    ensures Extended(m, BodyStep(m), BodyStep(m.Plus(more)), more)
  {
    if m.request.contentLength <= |m.input| {
      SliceBody(m.input, more, m.request.contentLength);
    }
  }

  lemma SliceBody(input: string, more: string, n: nat)
    requires n <= |input|
    ensures (input + more)[..n] == input[..n] && (input + more)[n..] == input[n..] + more
  {}

  lemma SliceLine(input: string, more: string, e: nat)
    requires e + 2 <= |input|
    ensures (input + more)[..e] == input[..e]
    ensures (input + more)[e + 2..] == input[e + 2..] + more
  {}

  /** A call on fewer bytes followed by the rest answers like one call on all the bytes. */
  lemma {:induction false} LoopExtend(m: Machine, max: nat, more: string)
    requires m.state != GotAll
    ensures var r := Loop(m, max);
      Loop(m.Plus(more), max)
        == (if r.v == More then Loop(r.m.Plus(more), max) else Result(r.m.Plus(more), r.v))
    decreases |m.input|
  {
    StepExtend(m, max, more);
    match Step(m, max)
    case Continue(m') => LoopExtend(m', max, more);
    case Stop(m', v) =>
  }

  /** Waiting leaves the error status alone and the machine where it cannot move. */
  lemma {:induction false} LoopMore(m: Machine, max: nat)
    requires m.state != GotAll && Loop(m, max).v == More
    ensures var r := Loop(m, max);
      r.m.errorStatus == m.errorStatus && Loop(r.m, max) == r
    decreases |m.input|
  {
    match Step(m, max)
    case Continue(m') => LoopMore(m', max);
    case Stop(m', v) => WaitingStays(m, max);
  }

  lemma WaitingStays(m: Machine, max: nat)
    requires m.state != GotAll && Step(m, max).Stop? && Step(m, max).v == More
    ensures Step(m, max).m == m
  {}

  lemma {:induction false} FeedFrom(m: Machine, max: nat, chunks: seq<string>)
    requires m.state != GotAll && m.errorStatus == 400
    requires Loop(m, max) == Result(m, More)
    ensures Feed(m, max, chunks) == Parse(m.Plus(Concat(chunks)), max)
    decreases |chunks|
  {
    if chunks == [] {
      assert m.Plus("") == m;
    } else {
      var rest := Concat(chunks[1..]);
      var first := m.Plus(chunks[0]);
      assert first.Plus(rest) == m.Plus(Concat(chunks)) by {
        assert m.input + chunks[0] + rest == m.input + (chunks[0] + rest);
      }
      LoopExtend(first, max, rest);
      if Parse(first, max).v == More {
        LoopMore(first, max);
        FeedFrom(Parse(first, max).m, max, chunks[1..]);
      }
    }
  }

  /**
    Chunking independence: verdict, error status, request and unread bytes depend only on
    the bytes received.
  */
  lemma ChunkingIndependent(max: nat, chunks: seq<string>)
    ensures Feed(Start(""), max, chunks) == Parse(Start(Concat(chunks)), max)
  {
    FeedFrom(Start(""), max, chunks);
    assert Start("").Plus(Concat(chunks)) == Start(Concat(chunks));
  }
}
