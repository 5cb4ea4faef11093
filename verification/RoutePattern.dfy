/**
  Path patterns: how the router turns `/:name` into a capture, what the converted
  expression matches, and which index keys a path is looked up under.
*/
module RoutePatterns {
  import opened Common
  import opened Text

  // ---- conversion ------------------------------------------------------------

  /** A converted pattern: literal characters and captures `([^/]+)`. */
  datatype Token = Lit(c: char) | Capture

  /** `convertToRegex`: every `/:name` with a nonempty name becomes a slash and a capture. */
  function Tokens(pattern: string): seq<Token>
    decreases |pattern|
  {
    if pattern == "" then []
    else if StartsParameter(pattern) then
      [Lit('/'), Capture] + Tokens(pattern[2 + Find(pattern[2..], '/')..])
    else [Lit(pattern[0])] + Tokens(pattern[1..])
  }

  predicate StartsParameter(s: string) {
    |s| > 2 && s[0] == '/' && s[1] == ':' && s[2] != '/'
  }

  /** The characters with a meaning of their own in an ECMAScript regular expression. */
  const META: string := "^$\\.*+?()[]{}|"

  /** A pattern whose literal text stands for itself. */
  predicate Supported(pattern: string) {
    forall t | t in Tokens(pattern) :: t.Lit? ==> t.c !in META
  }

  // ---- what a converted pattern matches -----------------------------------------

  function CaptureCount(ts: seq<Token>): nat {
    if ts == [] then 0 else CaptureCount(ts[1..]) + (if ts[0] == Capture then 1 else 0)
  }

  /** The path that results from putting `caps` in place of the captures. */
  function Fill(ts: seq<Token>, caps: seq<string>): string
    requires |caps| == CaptureCount(ts)
  {
    if ts == [] then ""
    else match ts[0]
      case Lit(c) => [c] + Fill(ts[1..], caps)
      case Capture => caps[0] + Fill(ts[1..], caps[1..])
  }

  ghost predicate GoodCapture(cap: string) {
    cap != "" && '/' !in cap
  }

  /** The meaning of the regular expression: some nonempty slash-free captures spell the path. */
  ghost predicate Denotes(ts: seq<Token>, path: string, caps: seq<string>) {
    && |caps| == CaptureCount(ts)
    && (forall i | 0 <= i < |caps| :: GoodCapture(caps[i]))
    && Fill(ts, caps) == path
  }

  /** `std::regex_match` with its captures: a capture takes everything up to the next slash. */
  function Match(ts: seq<Token>, path: string): Option<seq<string>>
    decreases |ts|
  {
    if ts == [] then
      if path == "" then Some([]) else None
    else match ts[0]
      case Lit(c) =>
        if path != "" && path[0] == c then Match(ts[1..], path[1..]) else None
      case Capture =>
        var n := Find(path, '/');
        if n == 0 then None
        else match Match(ts[1..], path[n..])
          case Some(caps) => Some([path[..n]] + caps)
          case None => None
  }

  /** Every capture is followed by a slash or the end. */
  predicate WholeSegments(ts: seq<Token>) {
    forall i | 0 <= i < |ts| && ts[i] == Capture :: i + 1 == |ts| || ts[i + 1] == Lit('/')
  }

  lemma {:induction false} TokensWholeSegments(pattern: string)
    ensures WholeSegments(Tokens(pattern))
    ensures pattern != "" ==> Tokens(pattern) != [] && Tokens(pattern)[0] == Lit(pattern[0])
    ensures pattern == "" ==> Tokens(pattern) == []
    decreases |pattern|
  {
    if StartsParameter(pattern) {
      var rest := pattern[2 + Find(pattern[2..], '/')..];
      TokensWholeSegments(rest);
    } else if pattern != "" {
      TokensWholeSegments(pattern[1..]);
    }
  }

  lemma {:induction false} MatchDenotes(ts: seq<Token>, path: string)
    requires Match(ts, path).Some?
    ensures Denotes(ts, path, Match(ts, path).value)
    decreases |ts|
  {
    if ts != [] {
      if ts[0] == Capture {
        var n := Find(path, '/');
        MatchDenotes(ts[1..], path[n..]);
        var caps := Match(ts[1..], path[n..]).value;
        assert ([path[..n]] + caps)[1..] == caps;
        assert path == path[..n] + path[n..];
      } else {
        MatchDenotes(ts[1..], path[1..]);
        assert path == [path[0]] + path[1..];
      }
    }
  }

  lemma {:induction false} DenotesMatch(ts: seq<Token>, path: string, caps: seq<string>)
    requires WholeSegments(ts) && Denotes(ts, path, caps)
    ensures Match(ts, path) == Some(caps)
    decreases |ts|
  {
    if ts == [] {
    } else if ts[0] == Capture {
      var rest := Fill(ts[1..], caps[1..]);
      assert GoodCapture(caps[0]);
      RestStartsWithSlash(ts, caps);
      FindUnique(path, '/', |caps[0]|);
      assert path[..|caps[0]|] == caps[0] && path[|caps[0]|..] == rest;
      assert WholeSegments(ts[1..]) by { TailWholeSegments(ts); }
      DenotesMatch(ts[1..], rest, caps[1..]);
      assert [caps[0]] + caps[1..] == caps;
    } else {
      TailWholeSegments(ts);
      assert path[1..] == Fill(ts[1..], caps);
      DenotesMatch(ts[1..], path[1..], caps);
    }
  }

  lemma TailWholeSegments(ts: seq<Token>)
    requires ts != [] && WholeSegments(ts)
    ensures WholeSegments(ts[1..])
  {
    forall i | 0 <= i < |ts[1..]| && ts[1..][i] == Capture
      ensures i + 1 == |ts[1..]| || ts[1..][i + 1] == Lit('/')
    {
      assert ts[i + 1] == Capture;
    }
  }

  lemma RestStartsWithSlash(ts: seq<Token>, caps: seq<string>)
    requires ts != [] && ts[0] == Capture && WholeSegments(ts) && |caps| == CaptureCount(ts)
    ensures var rest := Fill(ts[1..], caps[1..]); rest == "" || rest[0] == '/'
  {}

  /**
    Matching is unambiguous: a path has at most one decomposition against a converted
    pattern, and the matcher finds it exactly when there is one.
  */
  lemma MatchIffDenotes(pattern: string, path: string, caps: seq<string>)
    ensures Match(Tokens(pattern), path) == Some(caps) <==> Denotes(Tokens(pattern), path, caps)
  {
    TokensWholeSegments(pattern);
    if Denotes(Tokens(pattern), path, caps) {
      DenotesMatch(Tokens(pattern), path, caps);
    } else if Match(Tokens(pattern), path) == Some(caps) {
      MatchDenotes(Tokens(pattern), path);
    }
  }

  // ---- segment by segment -----------------------------------------------------------

  function Split(s: string): (segments: seq<string>)
    ensures segments != []
    decreases |s|
  {
    var n := Find(s, '/');
    if n == |s| then [s] else [s[..n]] + Split(s[n + 1..])
  }

  function Tail(segments: seq<string>): string {
    if segments == [] then "" else "/" + segments[0] + Tail(segments[1..])
  }

  predicate SlashFree(segments: seq<string>) {
    forall i | 0 <= i < |segments| :: '/' !in segments[i]
  }

  lemma {:induction false} SplitJoins(s: string)
    ensures SlashFree(Split(s)) && s == Split(s)[0] + Tail(Split(s)[1..])
    decreases |s|
  {
    var n := Find(s, '/');
    if n == |s| {
      assert Split(s)[1..] == [];
    } else {
      var rest := Split(s[n + 1..]);
      SplitJoins(s[n + 1..]);
      FindSplit(s, '/');
      JoinFirst(s[..n], rest, s[n + 1..]);
    }
  }

  lemma JoinFirst(first: string, rest: seq<string>, after: string)
    requires '/' !in first && rest != [] && SlashFree(rest) && after == rest[0] + Tail(rest[1..])
    ensures var all := [first] + rest;
      SlashFree(all) && first + "/" + after == all[0] + Tail(all[1..])
  {
    var all := [first] + rest;
    assert all[1..] == rest;
    Assoc("/", rest[0], Tail(rest[1..]));
    Assoc(first, "/", after);
  }

  predicate IsParameter(segment: string) {
    |segment| > 1 && segment[0] == ':'
  }

  predicate SegmentMatches(pattern: string, segment: string) {
    if IsParameter(pattern) then segment != "" else segment == pattern
  }

  predicate SegmentsMatch(patterns: seq<string>, segments: seq<string>) {
    && |patterns| == |segments|
    && forall i | 0 <= i < |patterns| :: SegmentMatches(patterns[i], segments[i])
  }

  function Lits(s: string): seq<Token> {
    seq(|s|, i requires 0 <= i < |s| => Lit(s[i]))
  }

  /** The tokens of a slash-free stretch are its characters. */
  lemma {:induction false} TokensOfStretch(s: string, rest: string)
    requires '/' !in s
    ensures Tokens(s + rest) == Lits(s) + Tokens(rest)
    decreases |s|
  {
    if s == "" {
      assert s + rest == rest;
    } else {
      assert s[0] in s && (s + rest)[1..] == s[1..] + rest;
      TokensOfStretch(s[1..], rest);
      assert Lits(s) == [Lit(s[0])] + Lits(s[1..]);
    }
  }

  lemma TailStartsWithSlash(segments: seq<string>)
    ensures Tail(segments) == "" || Tail(segments)[0] == '/'
  {}

  /** The first segment of a tail, up to the next slash. */
  lemma SegmentEnd(segment: string, tail: string)
    requires '/' !in segment && (tail == "" || tail[0] == '/')
    ensures Find(segment + tail, '/') == |segment|
    ensures (segment + tail)[..|segment|] == segment && (segment + tail)[|segment|..] == tail
  {
    FindUnique(segment + tail, '/', |segment|);
  }

  lemma TokensOfTail(segment: string, tail: string)
    requires '/' !in segment && (tail == "" || tail[0] == '/')
    ensures Tokens("/" + segment + tail)
      == [Lit('/')] + (if IsParameter(segment) then [Capture] else Lits(segment)) + Tokens(tail)
  {
    Assoc("/", segment, tail);
    if IsParameter(segment) {
      TokensOfParameter(segment, tail);
    } else {
      TokensOfLiteral(segment, tail);
    }
  }

  lemma TokensOfParameter(segment: string, tail: string)
    requires '/' !in segment && (tail == "" || tail[0] == '/') && IsParameter(segment)
    ensures Tokens("/" + (segment + tail)) == [Lit('/')] + [Capture] + Tokens(tail)
  {
    var s := "/" + (segment + tail);
    var name := segment[1..];
    assert s[1] == segment[0] && s[2] == segment[1] && segment[1] in segment;
    SegmentEnd(name, tail);
    assert s[2..] == name + tail;
    assert s[2 + |name|..] == tail;
  }

  lemma TokensOfLiteral(segment: string, tail: string)
    requires '/' !in segment && (tail == "" || tail[0] == '/') && !IsParameter(segment)
    ensures Tokens("/" + (segment + tail)) == [Lit('/')] + Lits(segment) + Tokens(tail)
  {
    var s := "/" + (segment + tail);
    assert s[1..] == segment + tail;
    assert !StartsParameter(s) by {
      if |segment| == 1 && |s| > 2 {
        assert s[2] == tail[0];
      } else if |segment| > 1 {
        assert s[1] == segment[0];
      } else if segment == "" && |s| > 1 {
        assert s[1] == tail[0];
      }
    }
    TokensOfStretch(segment, tail);
    assert [Lit('/')] + (Lits(segment) + Tokens(tail)) == [Lit('/')] + Lits(segment) + Tokens(tail);
  }

  lemma {:induction false} MatchLits(s: string, ts: seq<Token>, path: string)
    ensures Match(Lits(s) + ts, path)
      == (if s <= path then Match(ts, path[|s|..]) else None)
    decreases |s|
  {
    if s == "" {
      assert Lits(s) + ts == ts && path[0..] == path;
    } else {
      assert (Lits(s) + ts)[1..] == Lits(s[1..]) + ts;
      if path != "" && path[0] == s[0] {
        MatchLits(s[1..], ts, path[1..]);
        if s[1..] <= path[1..] {
          assert s == [s[0]] + s[1..] && path == [path[0]] + path[1..];
          assert path[1..][|s| - 1..] == path[|s|..];
        }
      }
    }
  }

  /** The segments of a path at the parameter positions of a pattern. */
  function Picked(patterns: seq<string>, segments: seq<string>): seq<string>
    requires |patterns| == |segments|
  {
    if patterns == [] then []
    else (if IsParameter(patterns[0]) then [segments[0]] else []) + Picked(patterns[1..], segments[1..])
  }

  /** Matching from a slash on is comparing the segments one by one. */
  lemma {:induction false} TailMatches(patterns: seq<string>, segments: seq<string>)
    requires SlashFree(patterns) && SlashFree(segments)
    ensures Match(Tokens(Tail(patterns)), Tail(segments))
      == (if SegmentsMatch(patterns, segments) then Some(Picked(patterns, segments)) else None)
    decreases |patterns|
  {
    if patterns == [] || segments == [] {
      TokensWholeSegments(Tail(patterns));
    } else {
      var p, rest := patterns[0], Tail(patterns[1..]);
      var s, tail := segments[0], Tail(segments[1..]);
      TailStartsWithSlash(patterns[1..]);
      TailStartsWithSlash(segments[1..]);
      TokensOfTail(p, rest);
      TailMatches(patterns[1..], segments[1..]);
      SegmentsMatchSplit(patterns, segments);
      SegmentMatch(p, rest, s, tail);
    }
  }

  lemma SegmentsMatchSplit(patterns: seq<string>, segments: seq<string>)
    requires patterns != [] && segments != []
    ensures SegmentsMatch(patterns, segments)
      <==> SegmentMatches(patterns[0], segments[0]) && SegmentsMatch(patterns[1..], segments[1..])
  {
    if SegmentMatches(patterns[0], segments[0]) && SegmentsMatch(patterns[1..], segments[1..]) {
      forall i | 0 <= i < |patterns| ensures SegmentMatches(patterns[i], segments[i]) {
        if i > 0 {
          assert patterns[1..][i - 1] == patterns[i] && segments[1..][i - 1] == segments[i];
        }
      }
    } else if SegmentsMatch(patterns, segments) {
      forall i | 0 <= i < |patterns| - 1 ensures SegmentMatches(patterns[1..][i], segments[1..][i]) {
        assert SegmentMatches(patterns[i + 1], segments[i + 1]);
      }
    }
  }

  lemma SegmentMatch(p: string, rest: string, s: string, tail: string)
    requires '/' !in p && '/' !in s && (rest == "" || rest[0] == '/') && (tail == "" || tail[0] == '/')
    ensures var ts := [Lit('/')] + (if IsParameter(p) then [Capture] else Lits(p)) + Tokens(rest);
      var more := Match(Tokens(rest), tail);
      Match(ts, "/" + s + tail)
        == (if SegmentMatches(p, s) && more.Some? then Some((if IsParameter(p) then [s] else []) + more.value)
            else None)
  {
    SegmentEnd(s, tail);
    if IsParameter(p) {
      MatchAfterSlash([Capture], Tokens(rest), s, tail);
      assert ([Capture] + Tokens(rest))[1..] == Tokens(rest);
    } else {
      MatchAfterSlash(Lits(p), Tokens(rest), s, tail);
      MatchLits(p, Tokens(rest), s + tail);
      if p <= s + tail {
        LiteralSegment(p, rest, s, tail);
      }
      assert forall caps: seq<string> :: [] + caps == caps;
    }
  }

  lemma MatchAfterSlash(ts: seq<Token>, more: seq<Token>, s: string, tail: string)
    ensures Match([Lit('/')] + ts + more, "/" + s + tail) == Match(ts + more, s + tail)
  {
    assert ([Lit('/')] + ts + more)[1..] == ts + more;
    assert ("/" + s + tail)[1..] == s + tail;
  }

  lemma SlashAhead(p: string, w: string, i: nat)
    requires '/' !in p && i < |p| && p <= w
    ensures w[i] != '/'
  {
    assert p[i] in p;
  }

  /** A literal segment can only match the whole segment. */
  lemma LiteralSegment(p: string, rest: string, s: string, tail: string)
    requires '/' !in p && '/' !in s && (rest == "" || rest[0] == '/') && (tail == "" || tail[0] == '/')
    requires p <= s + tail
    ensures p == s || Match(Tokens(rest), (s + tail)[|p|..]).None?
  {
    var w := s + tail;
    TokensWholeSegments(rest);
    if |s| < |p| {
      SlashAhead(p, w, |s|);
    } else if |p| < |s| {
      assert w[|p|..][0] == s[|p|];
    } else {
      assert w[..|p|] == p == s;
    }
  }

  /**
    `regex_match` on the converted pattern is the comparison of pattern and path by segments,
    and its captures are the segments at the parameter positions.
  */
  lemma MatchBySegments(pattern: string, path: string)
    ensures var ps, ss := Split(pattern), Split(path);
      Match(Tokens(pattern), path)
        == (if ps[0] == ss[0] && SegmentsMatch(ps[1..], ss[1..]) then Some(Picked(ps[1..], ss[1..])) else None)
  {
    var ps, ss := Split(pattern), Split(path);
    SplitJoins(pattern);
    SplitJoins(path);
    var rest, tail := Tail(ps[1..]), Tail(ss[1..]);
    TailStartsWithSlash(ps[1..]);
    TailStartsWithSlash(ss[1..]);
    TokensOfStretch(ps[0], rest);
    MatchLits(ps[0], Tokens(rest), path);
    if ps[0] <= path {
      LiteralSegment(ps[0], rest, ss[0], tail);
    }
    SegmentEnd(ss[0], tail);
    TailMatches(ps[1..], ss[1..]);
  }
}
