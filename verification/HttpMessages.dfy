/** What the parser recovers from requests in the grammar of sections 3.1.1, 3.2 and 3.2.4 of RFC 7230,
    and what it does with a request that arrives in two parts. */
module HttpMessages {
  import opened HttpRequest
  import opened HttpParse

  const CRLF := "\r\n"

  /** `value`: everything between the colon and the line end, with its white space. */
  datatype Field = Field(name: string, value: string)

  datatype Message = Message(verb: Method, target: string, version: Version, fields: seq<Field>, body: string)

  function RequestLineOf(m: Message): string {
    MethodString(m.verb) + " " + m.target + " " + VersionString(m.version)
  }

  function FieldLine(f: Field): string {
    f.name + ":" + f.value
  }

  function FieldLines(fields: seq<Field>): string {
    if fields == [] then "" else FieldLine(fields[0]) + CRLF + FieldLines(fields[1..])
  }

  function Text(m: Message): string {
    RequestLineOf(m) + CRLF + (FieldLines(m.fields) + CRLF + m.body)
  }

  predicate WellFormedField(f: Field) {
    ':' !in f.name && !HasCrlf(FieldLine(f))
  }

  predicate WellFormed(m: Message) {
    && m.verb != Invalid && m.version != Unknown
    && ' ' !in m.target && !HasCrlf(m.target)
    && forall f | f in m.fields :: WellFormedField(f)
  }

  /** Later fields of the same name replace earlier ones. */
  function HeadersOf(fields: seq<Field>, before: map<string, string>): map<string, string> {
    if fields == [] then before
    else HeadersOf(fields[1..], before[fields[0].name := Trimmed(fields[0].value)])
  }

  predicate IsLastOf(fields: seq<Field>, i: nat) {
    i < |fields| && forall j | i < j < |fields| :: fields[j].name != fields[i].name
  }

  lemma {:induction false} LastOccurrenceWins(fields: seq<Field>, before: map<string, string>)
    ensures var h := HeadersOf(fields, before);
            && (forall i: nat | IsLastOf(fields, i) ::
                  fields[i].name in h && h[fields[i].name] == Trimmed(fields[i].value))
            && (forall name | name !in Names(fields) ::
                  (name in h <==> name in before) && (name in h ==> h[name] == before[name]))
            && Names(fields) <= h.Keys
    decreases |fields|
  {
    if fields != [] {
      var first, rest := fields[0], fields[1..];
      LastOccurrenceWins(rest, before[first.name := Trimmed(first.value)]);
      assert Names(fields) == {first.name} + Names(rest);
      forall i: nat | IsLastOf(fields, i)
        ensures i > 0 ==> IsLastOf(rest, i - 1)
        ensures i == 0 ==> first.name !in Names(rest)
      {
      }
    }
  }

  function Names(fields: seq<Field>): set<string> {
    set f | f in fields :: f.name
  }

  lemma FirstLine(line: string, rest: string)
    requires !HasCrlf(line)
    ensures var s := line + CRLF + rest;
            FindCrlf(s) == |line| && s[..|line|] == line && s[|line| + 2..] == rest && |line| < |s|
  {
    var s := line + CRLF + rest;
    forall i: nat | i < |line|
      ensures !CrlfAt(s, i)
    {
      assert !CrlfAt(line, i);
    }
    assert CrlfAt(s, |line|);
    assert IsFirstCrlf(s, |line|);
  }

  lemma SplitAt(a: string, c: char, b: string)
    requires c !in a
    ensures Find(a + [c] + b, c) == |a| && (a + [c] + b)[..|a|] == a && (a + [c] + b)[|a| + 1..] == b
  {
    var s := a + [c] + b;
    assert forall i | 0 <= i < |a| :: s[i] == a[i] && s[i] in a;
    assert IsFirst(s, c, |a|);
  }

  lemma TargetIsKept(r: Request, target: string)
    ensures var t := WithTarget(r, target);
            && (t.path + t.query == target <==> '?' in target || r.query == "")
            && '?' !in t.path
  {
    var question := Find(target, '?');
    assert target[..question] + target[question..] == target;
    if question == |target| {
      assert target[..question] == target;
    }
  }

  lemma RequestLineIsRead(r: Request, m: Message)
    requires WellFormed(m)
    ensures ProcessRequestLine(r, RequestLineOf(m))
            == LineResult(WithTarget(r.(verb := m.verb), m.target).(version := m.version), true)
  {
    MethodIsRead(m.verb);
    LineIsRead(r, MethodString(m.verb), m.target, VersionString(m.version));
    VersionIsRead(WithTarget(r.(verb := m.verb), m.target), m.version);
  }

  lemma MethodIsRead(verb: Method)
    requires verb != Invalid
    ensures ' ' !in MethodString(verb) && MethodNamed(MethodString(verb)) == verb
  {
  }

  lemma VersionIsRead(r: Request, version: Version)
    requires version != Unknown
    ensures WithVersion(r, VersionString(version)) == LineResult(r.(version := version), true)
  {
  }

  lemma LineIsRead(r: Request, verb: string, target: string, version: string)
    requires ' ' !in verb && ' ' !in target && MethodNamed(verb) != Invalid
    ensures ProcessRequestLine(r, verb + " " + target + " " + version)
            == WithVersion(WithTarget(r.(verb := MethodNamed(verb)), target), version)
  {
    var rest := target + " " + version;
    assert verb + " " + target + " " + version == verb + " " + rest;
    SplitAt(verb, ' ', rest);
    SplitAt(target, ' ', version);
  }

  lemma RequestLineHasNoCrlf(m: Message)
    requires WellFormed(m)
    ensures !HasCrlf(RequestLineOf(m))
  {
    var verb, version := MethodString(m.verb), VersionString(m.version);
    var line := RequestLineOf(m);
    forall i: nat | i < |line|
      ensures !CrlfAt(line, i)
    {
      if |verb| + 1 <= i < |verb| + 1 + |m.target| {
        assert !CrlfAt(m.target, i - |verb| - 1);
      }
    }
  }

  lemma BlankLineIsRead(r: Request, body: string, receiveTime: int)
    ensures Parse(Parser(ExpectHeaders, r, "" + CRLF + body), receiveTime)
            == Outcome(Parser(Success, r, body), true, false)
  {
    FirstLine("", body);
    var p := Parser(ExpectEmptyline, r, "" + CRLF + body);
    assert Turn(p.(stage := ExpectHeaders), receiveTime) == Outcome(p, true, true);
    assert Turn(p, receiveTime) == Advance(ExpectBody, r, body);
    var q := Parser(ExpectBody, r, body);
    assert Parse(q, receiveTime) == Outcome(Parser(Success, r, body), true, false);
    assert Parse(p, receiveTime) == Outcome(Parser(Success, r, body), true, false);
  }

  lemma {:induction false} FieldsAreRead(r: Request, fields: seq<Field>, body: string, receiveTime: int)
    requires forall f | f in fields :: WellFormedField(f)
    ensures Parse(Parser(ExpectHeaders, r, FieldLines(fields) + CRLF + body), receiveTime)
            == Outcome(Parser(Success, r.(headers := HeadersOf(fields, r.headers)), body), true, false)
    decreases |fields|
  {
    var input := FieldLines(fields) + CRLF + body;
    if fields == [] {
      assert input == "" + CRLF + body;
      BlankLineIsRead(r, body, receiveTime);
    } else {
      var f, rest := fields[0], FieldLines(fields[1..]) + CRLF + body;
      assert f in fields;
      assert input == FieldLine(f) + CRLF + rest;
      FirstLine(FieldLine(f), rest);
      SplitAt(f.name, ':', f.value);
      var next := WithHeader(r, FieldLine(f));
      FieldsAreRead(next, fields[1..], body, receiveTime);
    }
  }

  /** A request held whole is recovered: method, version, target, fields, and what follows it. */
  lemma RequestRoundTrip(p: Parser, m: Message, receiveTime: int)
    requires WellFormed(m) && p.stage == ExpectRequestLine && p.input == Text(m)
    ensures var o := Parse(p, receiveTime); var r := o.parser.request;
            && o.ok && o.parser.stage == Success && o.parser.input == m.body
            && r.verb == m.verb && r.version == m.version && r.receiveTime == receiveTime
            && r.headers == HeadersOf(m.fields, p.request.headers)
            && (r.path + r.query == m.target <==> '?' in m.target || p.request.query == "")
            && '?' !in r.path && r.filename == AfterLastSlash(r.path)
  {
    var r := WithTarget(p.request.(verb := m.verb), m.target);
    TargetIsKept(p.request.(verb := m.verb), m.target);
    FirstLineIsRead(p, m, receiveTime);
    FieldsAreRead(r.(version := m.version, receiveTime := receiveTime), m.fields, m.body, receiveTime);
  }

  lemma FirstLineIsRead(p: Parser, m: Message, receiveTime: int)
    requires WellFormed(m) && p.stage == ExpectRequestLine && p.input == Text(m)
    ensures var r := WithTarget(p.request.(verb := m.verb), m.target);
            Turn(p, receiveTime)
            == Outcome(Parser(ExpectHeaders, r.(version := m.version, receiveTime := receiveTime),
                              FieldLines(m.fields) + CRLF + m.body), true, true)
  {
    var line, rest := RequestLineOf(m), FieldLines(m.fields) + CRLF + m.body;
    RequestLineHasNoCrlf(m);
    RequestLineIsRead(p.request, m);
    LineIsTaken(p, line, rest, receiveTime);
  }

  lemma LineIsTaken(p: Parser, line: string, rest: string, receiveTime: int)
    requires p.stage == ExpectRequestLine && p.input == line + CRLF + rest && !HasCrlf(line)
    ensures Turn(p, receiveTime) == RequestLine(p, line, rest, receiveTime)
  {
    FirstLine(line, rest);
  }

  // ------------------------------------------------------------- arriving in two parts

  function More(p: Parser, more: string): Parser {
    p.(input := p.input + more)
  }

  lemma CrlfStays(s: string, more: string)
    requires HasCrlf(s)
    ensures var at := FindCrlf(s);
            && FindCrlf(s + more) == at && (s + more)[..at] == s[..at]
            && (s + more)[at + 2..] == s[at + 2..] + more
  {
    var at := FindCrlf(s);
    forall i: nat | i < at
      ensures !CrlfAt(s + more, i)
    {
      assert !CrlfAt(s, i);
    }
    assert CrlfAt(s, at) && CrlfAt(s + more, at);
    assert IsFirstCrlf(s + more, at);
  }

  /** A bad request line leaves its marks on the request; reading it again changes nothing more. */
  lemma BadLineAgain(r: Request, line: string)
    requires !ProcessRequestLine(r, line).succeed
    ensures ProcessRequestLine(ProcessRequestLine(r, line).request, line) == ProcessRequestLine(r, line)
  {
  }

  /** The receive time matters only for the request line. */
  lemma {:induction false} TimeIsSet(p: Parser, receiveTime: int, other: int)
    requires p.stage != Success && p.stage != ExpectRequestLine
    ensures Parse(p, receiveTime) == Parse(p, other)
    decreases |p.input|, Rank(p.stage)
  {
    TurnDecreases(p, receiveTime);
    var o := Turn(p, receiveTime);
    if o.ok && o.hasMore {
      TimeIsSet(o.parser, receiveTime, other);
    }
  }

  lemma TurnExtends(p: Parser, more: string, time: int)
    requires p.stage != Success && Turn(p, time).ok && Turn(p, time).hasMore
    ensures Turn(More(p, more), time) == Turn(p, time).(parser := More(Turn(p, time).parser, more))
  {
    CrlfStays(p.input, more);
  }

  lemma TurnRunsOut(p: Parser, more: string, time: int)
    requires p.stage != Success && p.stage != ExpectBody && Turn(p, time).ok && !Turn(p, time).hasMore
    requires more != ""
    ensures var o, next := Turn(p, time), Turn(More(p, more), time);
            && o.parser.input == "" && next.ok && next.hasMore
            && next.parser == Parser(if p.stage == ExpectEmptyline then ExpectBody else ExpectHeaders,
                                     o.parser.request, more)
  {
    CrlfStays(p.input, more);
  }

  lemma FailedTurnResumes(p: Parser, more: string, time: int, later: int)
    requires p.stage != Success && !Turn(p, time).ok
    ensures var q := Turn(p, time).parser;
            q.stage == p.stage
            && Parse(More(q, more), later) == Parse(More(p, more), if p.stage.ExpectRequestLine? then later else time)
  {
    if HasCrlf(p.input) {
      CrlfStays(p.input, more);
      if p.stage == ExpectRequestLine {
        BadLineAgain(p.request, p.input[..FindCrlf(p.input)]);
      }
    } else if p.stage != ExpectRequestLine {
      TimeIsSet(More(p, more), later, time);
    }
  }

  /** A call that returns false loses nothing: called again with more input, the parser continues as if
      it had seen everything at once. */
  lemma {:induction false} FailureResumes(p: Parser, more: string, time: int, later: int)
    requires p.stage != Success && !Parse(p, time).ok
    ensures var q := Parse(p, time).parser;
            q.stage != Success
            && Parse(More(q, more), later) == Parse(More(p, more), if q.stage.ExpectRequestLine? then later else time)
    decreases |p.input|, Rank(p.stage)
  {
    TurnDecreases(p, time);
    var o := Turn(p, time);
    if !o.ok {
      FailedTurnResumes(p, more, time, later);
    } else {
      StageMovesOn(o.parser, time);
      FailureResumes(o.parser, more, time, later);
      assert Parse(More(p, more), time) == Parse(More(o.parser, more), time) by {
        TurnExtends(p, more, time);
      }
    }
  }

  lemma {:induction false} StageMovesOn(p: Parser, time: int)
    requires p.stage != Success && p.stage != ExpectRequestLine
    ensures Parse(p, time).parser.stage != ExpectRequestLine
    decreases |p.input|, Rank(p.stage)
  {
    TurnDecreases(p, time);
    var o := Turn(p, time);
    if o.ok && o.hasMore {
      StageMovesOn(o.parser, time);
    }
  }

  ghost predicate HasBlankLine(s: string) {
    exists i: nat :: CrlfAt(s, i) && CrlfAt(s, i + 2)
  }

  /** The blank line is here: after another line, or at once for a parser past the request line. */
  ghost predicate HoldsEnd(p: Parser) {
    || p.stage == ExpectBody
    || HasBlankLine(p.input)
    || (p.stage != ExpectRequestLine && CrlfAt(p.input, 0))
  }

  /** After a line that is not empty, the blank line is in what follows it, or nowhere. */
  lemma EndIsBehindTheLine(s: string)
    requires HasCrlf(s) && FindCrlf(s) > 0
    ensures var rest := s[FindCrlf(s) + 2..];
            !CrlfAt(s, 0) && (HasBlankLine(s) <==> CrlfAt(rest, 0) || HasBlankLine(rest))
  {
    var at := FindCrlf(s);
    var rest := s[at + 2..];
    assert !CrlfAt(s, 0) && CrlfAt(s, at);
    assert forall i: nat :: CrlfAt(rest, i) == CrlfAt(s, at + 2 + i);
    if i: nat :| CrlfAt(s, i) && CrlfAt(s, i + 2) {
      assert i >= at && i != at + 1;
      assert i > at ==> CrlfAt(rest, i - at - 2) && CrlfAt(rest, i - at);
    }
    if i: nat :| CrlfAt(rest, i) && CrlfAt(rest, i + 2) {
      assert CrlfAt(s, at + 2 + i) && CrlfAt(s, at + 2 + i + 2);
    }
    if CrlfAt(rest, 0) {
      assert CrlfAt(s, at) && CrlfAt(s, at + 2);
    }
  }

  /** Before the body, success costs at least one line. */
  lemma {:induction false} SuccessConsumes(p: Parser, time: int)
    requires p.stage != Success && Parse(p, time).ok
    ensures p.stage == ExpectBody || |Parse(p, time).parser.input| < |p.input|
    ensures |Parse(p, time).parser.input| <= |p.input|
    decreases |p.input|, Rank(p.stage)
  {
    TurnDecreases(p, time);
    var o := Turn(p, time);
    if o.ok && o.hasMore {
      SuccessConsumes(o.parser, time);
    }
  }

  lemma EndMoves(p: Parser, time: int)
    requires p.stage != Success && Turn(p, time).ok
    ensures var o := Turn(p, time);
            && (o.hasMore ==> (HoldsEnd(p) <==> HoldsEnd(o.parser)))
            && (!o.hasMore ==> (HoldsEnd(p) <==> p.stage == ExpectEmptyline || p.stage == ExpectBody))
  {
    if p.stage == ExpectRequestLine || (p.stage == ExpectHeaders && Turn(p, time).parser.stage != ExpectEmptyline) {
      EndIsBehindTheLine(p.input);
    }
  }

  /** A call that returns true has seen the blank line, or else it stopped only because the input was
      used up: then more input would have made a difference. */
  lemma {:induction false} SuccessSplits(p: Parser, more: string, time: int)
    requires p.stage != Success && Parse(p, time).ok && more != ""
    ensures var o, all := Parse(p, time), Parse(More(p, more), time);
            (all.ok && all.parser == More(o.parser, more)) <==> HoldsEnd(p)
    decreases |p.input|, Rank(p.stage)
  {
    TurnDecreases(p, time);
    var o := Turn(p, time);
    EndMoves(p, time);
    if p.stage != ExpectBody {
      if o.hasMore {
        TurnExtends(p, more, time);
        SuccessSplits(o.parser, more, time);
      } else {
        TurnRunsOut(p, more, time);
        var next := Turn(More(p, more), time).parser;
        assert Parse(More(p, more), time) == Parse(next, time);
        if Parse(next, time).ok {
          SuccessConsumes(next, time);
        }
      }
    }
  }

  /** What a second call makes of the rest; after success there is none, and the rest is merely kept. */
  function Resumed(o: Outcome, more: string, time: int): Outcome
    requires o.ok <==> o.parser.stage == Success
  {
    if o.ok then o.(parser := More(o.parser, more)) else Parse(More(o.parser, more), time)
  }

  /** Whether the rest of the input is present already makes no difference exactly when the first call
      returns false, or nothing is missing, or the blank line has arrived. */
  lemma SplitIsInvisible(p: Parser, more: string, time: int)
    requires p.stage != Success
    ensures var o := Parse(p, time);
            Resumed(o, more, time) == Parse(More(p, more), time) <==> !o.ok || more == "" || HoldsEnd(p)
  {
    if Parse(p, time).ok {
      if more == "" {
        assert p.input + more == p.input && Parse(p, time).parser.input + more == Parse(p, time).parser.input;
      } else {
        SuccessSplits(p, more, time);
      }
    } else {
      FailureResumes(p, more, time, time);
    }
  }

  // ------------------------------------------------------------- where a request may be cut

  /** A turn takes whole lines from the front: what it leaves is an end of the input, and it runs out
      right behind a line. */
  lemma TurnLeavesEnd(p: Parser, time: int)
    requires p.stage != Success && p.stage != ExpectBody && Turn(p, time).ok
    ensures var rest := Turn(p, time).parser.input;
            && |rest| <= |p.input| && rest == p.input[|p.input| - |rest|..]
            && (!Turn(p, time).hasMore ==> |p.input| >= 2 && CrlfAt(p.input, |p.input| - 2))
  {
    TurnTakesALine(p, time);
    var rest, n := Turn(p, time).parser.input, FindCrlf(p.input) + 2;
    if rest == p.input {
      assert p.input[0..] == p.input;
    } else {
      assert rest == p.input[n..] && |p.input| - |rest| == n;
    }
  }

  lemma TurnTakesALine(p: Parser, time: int)
    requires p.stage != Success && p.stage != ExpectBody && Turn(p, time).ok
    ensures var o, at := Turn(p, time), FindCrlf(p.input);
            && at + 2 <= |p.input| && CrlfAt(p.input, at)
            && (o.parser.input == p.input[at + 2..] || (o.parser.input == p.input && o.hasMore))
            && (!o.hasMore ==> o.parser.input == "")
  {
  }

  predicate EndsALine(s: string) {
    |s| >= 2 && CrlfAt(s, |s| - 2)
  }

  lemma EndMovesBack(p: Parser, time: int)
    requires p.stage != Success && p.stage != ExpectBody && Turn(p, time).ok
    ensures !Turn(p, time).hasMore || EndsALine(Turn(p, time).parser.input) ==> EndsALine(p.input)
  {
    TurnLeavesEnd(p, time);
  }

  /** Success without the blank line comes right behind a line. */
  lemma {:induction false} EarlySuccessEndsALine(p: Parser, time: int)
    requires p.stage != Success
    ensures Parse(p, time).ok && !HoldsEnd(p) ==> EndsALine(p.input)
    decreases |p.input|, Rank(p.stage)
  {
    TurnDecreases(p, time);
    var o := Turn(p, time);
    if o.ok && p.stage != ExpectBody {
      EndMoves(p, time);
      EndMovesBack(p, time);
      if o.hasMore {
        EarlySuccessEndsALine(o.parser, time);
      }
    }
  }

  /** The request line and the header lines up to the blank line. */
  function HeadLines(fields: seq<Field>): string {
    FieldLines(fields) + CRLF
  }

  /** The cut falls right behind one of the first header lines, or in front of all. */
  ghost predicate BehindField(fields: seq<Field>, k: nat) {
    exists i :: 0 <= i <= |fields| && k == |FieldLines(fields[..i])|
  }

  /** The cut falls right behind the request line or a header line. */
  ghost predicate BehindLine(m: Message, k: nat) {
    exists i :: 0 <= i <= |m.fields| && k == |RequestLineOf(m)| + 2 + |FieldLines(m.fields[..i])|
  }

  lemma NoLineYet(line: string, rest: string, k: nat)
    requires !HasCrlf(line) && k < |line| + 2
    ensures !HasCrlf((line + CRLF + rest)[..k])
  {
    var s := line + CRLF + rest;
    FirstLine(line, rest);
    assert forall i: nat :: CrlfAt(s[..k], i) ==> CrlfAt(s, i) && i < |line|;
  }

  lemma NoCrlfNoEnd(p: Parser, time: int)
    requires !HasCrlf(p.input) && p.stage != Success && p.stage != ExpectBody
    ensures !HoldsEnd(p) && !Parse(p, time).ok
  {
    assert forall i: nat :: !CrlfAt(p.input, i) by {
      assert IsFirstCrlf(p.input, |p.input|);
    }
  }

  lemma FieldLinesCons(fields: seq<Field>, i: nat)
    requires 0 < i <= |fields|
    ensures FieldLines(fields[..i]) == FieldLine(fields[0]) + CRLF + FieldLines(fields[1..][..i - 1])
  {
    assert fields[..i][1..] == fields[1..][..i - 1];
  }

  lemma BehindFieldStep(fields: seq<Field>, k: nat)
    requires fields != []
    ensures var n := |FieldLine(fields[0])| + 2;
            BehindField(fields, k) <==> k == 0 || (k >= n && BehindField(fields[1..], k - n))
  {
    var n := |FieldLine(fields[0])| + 2;
    assert FieldLines(fields[..0]) == "";
    if i :| 0 <= i <= |fields| && k == |FieldLines(fields[..i])| {
      if i > 0 {
        FieldLinesCons(fields, i);
        assert k - n == |FieldLines(fields[1..][..i - 1])|;
      }
    }
    if k >= n && BehindField(fields[1..], k - n) {
      var i :| 0 <= i <= |fields[1..]| && k - n == |FieldLines(fields[1..][..i])|;
      FieldLinesCons(fields, i + 1);
      assert k == |FieldLines(fields[..i + 1])|;
    }
  }

  lemma CutBehind(line: string, rest: string, k: nat)
    requires |line| + 2 <= k <= |line| + 2 + |rest|
    ensures (line + CRLF + rest)[..k] == line + CRLF + rest[..k - (|line| + 2)]
  {
  }

  /** A line that is taken leaves the question to what follows it. */
  lemma TakenLine(p: Parser, line: string, next: Parser, time: int)
    requires p.stage == ExpectRequestLine || p.stage == ExpectHeaders
    requires p.input == line + CRLF + next.input && line != "" && !HasCrlf(line)
    requires next.stage == ExpectHeaders && Turn(p, time) == Advance(ExpectHeaders, next.request, next.input)
    ensures HoldsEnd(p) <==> HoldsEnd(next)
    ensures Parse(p, time).ok <==> next.input == "" || Parse(next, time).ok
  {
    FirstLine(line, next.input);
    EndIsBehindTheLine(p.input);
  }

  /** The header lines cut before the end of the blank line: the parse succeeds early exactly when the
      cut is behind a line. */
  lemma {:induction false} HeadersCut(r: Request, fields: seq<Field>, k: nat, time: int)
    requires forall f | f in fields :: WellFormedField(f)
    requires k < |HeadLines(fields)|
    ensures var p := Parser(ExpectHeaders, r, HeadLines(fields)[..k]);
            !HoldsEnd(p) && (Parse(p, time).ok <==> k > 0 && BehindField(fields, k))
    decreases |fields|
  {
    var p := Parser(ExpectHeaders, r, HeadLines(fields)[..k]);
    if fields == [] {
      assert HeadLines(fields) == "" + CRLF + "";
      NoLineYet("", "", k);
      NoCrlfNoEnd(p, time);
    } else {
      var line, rest := FieldLine(fields[0]), HeadLines(fields[1..]);
      assert fields[0] in fields && HeadLines(fields) == line + CRLF + rest;
      BehindFieldStep(fields, k);
      if k < |line| + 2 {
        NoLineYet(line, rest, k);
        NoCrlfNoEnd(p, time);
      } else {
        FieldCut(r, fields, k, time);
      }
    }
  }

  lemma FieldCut(r: Request, fields: seq<Field>, k: nat, time: int)
    requires fields != [] && forall f | f in fields :: WellFormedField(f)
    requires |FieldLine(fields[0])| + 2 <= k < |HeadLines(fields)|
    ensures var p := Parser(ExpectHeaders, r, HeadLines(fields)[..k]);
            !HoldsEnd(p) && (Parse(p, time).ok <==> BehindField(fields[1..], k - |FieldLine(fields[0])| - 2))
    decreases |fields|, 0
  {
    var line, n := FieldLine(fields[0]), |FieldLine(fields[0])| + 2;
    var rest := HeadLines(fields[1..]);
    var p := Parser(ExpectHeaders, r, HeadLines(fields)[..k]);
    assert fields[0] in fields && HeadLines(fields) == line + CRLF + rest;
    CutBehind(line, rest, k);
    HeaderIsTaken(p, fields[0], rest[..k - n], time);
    var next := Parser(ExpectHeaders, WithHeader(r, line), rest[..k - n]);
    TakenLine(p, line, next, time);
    HeadersCut(next.request, fields[1..], k - n, time);
    assert FieldLines(fields[1..][..0]) == "";
  }

  lemma HeaderIsTaken(p: Parser, f: Field, rest: string, time: int)
    requires p.stage == ExpectHeaders && p.input == FieldLine(f) + CRLF + rest && WellFormedField(f)
    ensures Find(FieldLine(f), ':') < |FieldLine(f)|
    ensures Turn(p, time) == Advance(ExpectHeaders, WithHeader(p.request, FieldLine(f)), rest)
  {
    FirstLine(FieldLine(f), rest);
    SplitAt(f.name, ':', f.value);
  }

  /** A well-formed request cut before the end of its blank line is reported as complete exactly when the
      cut is behind a line. */
  lemma EarlySuccess(p: Parser, m: Message, k: nat, time: int)
    requires WellFormed(m) && p.stage == ExpectRequestLine
    requires k < |RequestLineOf(m)| + 2 + |HeadLines(m.fields)| && p.input == Text(m)[..k]
    ensures !HoldsEnd(p) && (Parse(p, time).ok <==> BehindLine(m, k))
  {
    var line, n := RequestLineOf(m), |RequestLineOf(m)| + 2;
    RequestLineHasNoCrlf(m);
    if k < n {
      NoLineYet(line, FieldLines(m.fields) + CRLF + m.body, k);
      NoCrlfNoEnd(p, time);
    } else {
      var rest := HeadLines(m.fields)[..k - n];
      HeadOfText(m, k);
      LineIsTaken(p, line, rest, time);
      RequestLineIsRead(p.request, m);
      var next := Parser(ExpectHeaders, Turn(p, time).parser.request, rest);
      TakenLine(p, line, next, time);
      HeadersCut(next.request, m.fields, k - n, time);
      assert FieldLines(m.fields[..0]) == "";
      BehindLineIsBehindField(m, k);
    }
  }

  lemma HeadOfText(m: Message, k: nat)
    requires |RequestLineOf(m)| + 2 <= k <= |RequestLineOf(m)| + 2 + |HeadLines(m.fields)|
    ensures Text(m)[..k] == RequestLineOf(m) + CRLF + HeadLines(m.fields)[..k - (|RequestLineOf(m)| + 2)]
  {
    var line, head := RequestLineOf(m), HeadLines(m.fields);
    CutBehind(line, head + m.body, k);
    assert head + m.body == FieldLines(m.fields) + CRLF + m.body;
    assert (head + m.body)[..k - (|line| + 2)] == head[..k - (|line| + 2)];
  }

  lemma BehindLineIsBehindField(m: Message, k: nat)
    requires k >= |RequestLineOf(m)| + 2
    ensures BehindLine(m, k) <==> BehindField(m.fields, k - (|RequestLineOf(m)| + 2))
  {
  }

  /** In particular the request line alone is taken for a request. */
  lemma RequestLineAloneSucceeds(m: Message, time: int)
    requires WellFormed(m)
    ensures Parse(Parser(ExpectRequestLine, FRESH, RequestLineOf(m) + CRLF), time).ok
  {
    var k := |RequestLineOf(m)| + 2;
    var p := Parser(ExpectRequestLine, FRESH, RequestLineOf(m) + CRLF);
    assert p.input == Text(m)[..k];
    assert FieldLines(m.fields[..0]) == "";
    EarlySuccess(p, m, k, time);
  }

  lemma {:induction false} FieldLinesEnd(fields: seq<Field>)
    requires fields != []
    ensures |FieldLines(fields)| >= 2 && CrlfAt(FieldLines(fields), |FieldLines(fields)| - 2)
  {
    if |fields| == 1 {
      assert FieldLines(fields[1..]) == "";
    } else {
      FieldLinesEnd(fields[1..]);
    }
  }

  lemma {:induction false} FieldLinesShorter(fields: seq<Field>, i: nat)
    requires i <= |fields|
    ensures |FieldLines(fields[..i])| <= |FieldLines(fields)|
  {
    if i > 0 {
      FieldLinesCons(fields, i);
      FieldLinesShorter(fields[1..], i - 1);
    }
  }

  lemma BlankLineIsThere(m: Message, k: nat)
    requires |RequestLineOf(m)| + 2 + |HeadLines(m.fields)| <= k <= |Text(m)|
    ensures HasBlankLine(Text(m)[..k]) && !BehindLine(m, k)
  {
    var s, n := Text(m)[..k], |RequestLineOf(m)| + |FieldLines(m.fields)|;
    if m.fields != [] {
      FieldLinesEnd(m.fields);
    }
    assert CrlfAt(s, n) && CrlfAt(s, n + 2);
    forall i | 0 <= i <= |m.fields|
      ensures |FieldLines(m.fields[..i])| <= |FieldLines(m.fields)|
    {
      FieldLinesShorter(m.fields, i);
    }
  }

  /** Cutting a well-formed request in two changes nothing exactly when the cut is not right behind its
      request line or one of its header lines. */
  lemma CutIsInvisible(p: Parser, m: Message, k: nat, time: int)
    requires WellFormed(m) && p.stage == ExpectRequestLine
    requires k <= |Text(m)| && p.input == Text(m)[..k]
    ensures var more := Text(m)[k..];
            Resumed(Parse(p, time), more, time) == Parse(p.(input := Text(m)), time) <==> !BehindLine(m, k)
  {
    var more := Text(m)[k..];
    assert More(p, more) == p.(input := Text(m)) by {
      assert Text(m) == Text(m)[..k] + Text(m)[k..];
    }
    SplitIsInvisible(p, more, time);
    if k < |RequestLineOf(m)| + 2 + |HeadLines(m.fields)| {
      EarlySuccess(p, m, k, time);
    } else {
      BlankLineIsThere(m, k);
    }
  }

  // ----------------------------------------------------------------------- any chunks

  /** The parser is called after every chunk, until it returns true. */
  function Feed(p: Parser, chunks: seq<string>, time: int): Outcome
    requires p.stage != Success && chunks != []
    decreases |chunks|
  {
    var o := Parse(More(p, chunks[0]), time);
    if o.ok || |chunks| == 1 then o else Feed(o.parser, chunks[1..], time)
  }

  /** Everything up to and including the chunk after which the parser returned true. */
  function Fed(p: Parser, chunks: seq<string>, time: int): string
    requires p.stage != Success && chunks != []
    decreases |chunks|
  {
    var o := Parse(More(p, chunks[0]), time);
    if o.ok || |chunks| == 1 then chunks[0] else chunks[0] + Fed(o.parser, chunks[1..], time)
  }

  lemma MoreMore(p: Parser, a: string, b: string)
    ensures More(More(p, a), b) == More(p, a + b)
  {
    assert (p.input + a) + b == p.input + (a + b);
  }

  /** However the input is cut up, the calls end as one call on everything fed so far would. */
  lemma {:induction false} FeedingIsOneParse(p: Parser, chunks: seq<string>, time: int)
    requires p.stage != Success && chunks != []
    ensures Feed(p, chunks, time) == Parse(More(p, Fed(p, chunks, time)), time)
    decreases |chunks|
  {
    var o := Parse(More(p, chunks[0]), time);
    if !o.ok && |chunks| > 1 {
      var fed := Fed(o.parser, chunks[1..], time);
      FeedingIsOneParse(o.parser, chunks[1..], time);
      FailureResumes(More(p, chunks[0]), fed, time, time);
      MoreMore(p, chunks[0], fed);
    }
  }
}
