/** Exactly which texts the parser accepts, in the literal words of sections 3.1.1 and 3.2 of RFC 7230. */
module HttpAcceptance {
  import opened HttpRequest
  import opened HttpParse
  import opened HttpMessages

  // ------------------------------------------------------------------- the request line

  predicate IsMethodName(text: string) {
    text == "GET" || text == "POST" || text == "HEAD"
  }

  predicate IsVersionName(text: string) {
    text == "HTTP/1.0" || text == "HTTP/1.1"
  }

  /** A method, a target without a space and a version, with one space between each. */
  predicate IsRequestLine(line: string, name: string, target: string, version: string) {
    line == name + " " + target + " " + version && IsMethodName(name) && ' ' !in target && IsVersionName(version)
  }

  ghost predicate IsWellFormedLine(line: string) {
    exists name, target, version :: IsRequestLine(line, name, target, version)
  }

  lemma MethodIsNamed(text: string)
    ensures MethodNamed(text) == Get <==> text == "GET"
    ensures MethodNamed(text) == Post <==> text == "POST"
    ensures MethodNamed(text) == Head <==> text == "HEAD"
    ensures MethodNamed(text) == Invalid <==> !IsMethodName(text)
  {
  }

  lemma VersionIsNamed(r: Request, text: string)
    ensures WithVersion(r, text).succeed <==> IsVersionName(text)
    ensures text == "HTTP/1.0" ==> WithVersion(r, text).request == r.(version := Http10)
    ensures text == "HTTP/1.1" ==> WithVersion(r, text).request == r.(version := Http11)
    ensures !IsVersionName(text) ==> WithVersion(r, text).request == r
  {
  }

  lemma CutAt(s: string, c: char)
    requires Find(s, c) < |s|
    ensures var at := Find(s, c); s == s[..at] + [c] + s[at + 1..] && c !in s[..at]
  {
  }

  lemma NoSpaceInNames(text: string)
    ensures IsMethodName(text) || IsVersionName(text) ==> ' ' !in text
  {
  }

  /** A line of the form is accepted, and the request holds what its words say. */
  lemma WellFormedIsAccepted(r: Request, line: string, name: string, target: string, version: string)
    requires IsRequestLine(line, name, target, version)
    ensures var result := ProcessRequestLine(r, line);
            && result.succeed
            && (result.request.verb == Get <==> name == "GET")
            && (result.request.verb == Post <==> name == "POST")
            && (result.request.verb == Head <==> name == "HEAD")
            && (result.request.version == Http10 <==> version == "HTTP/1.0")
            && (result.request.version == Http11 <==> version == "HTTP/1.1")
            && result.request.headers == r.headers
  {
    NoSpaceInNames(name);
    MethodIsNamed(name);
    LineIsRead(r, name, target, version);
    VersionIsNamed(WithTarget(r.(verb := MethodNamed(name)), target), version);
  }

  lemma CutTwice(line: string)
    requires Find(line, ' ') < |line|
    requires Find(line[Find(line, ' ') + 1..], ' ') < |line[Find(line, ' ') + 1..]|
    ensures var space := Find(line, ' '); var rest := line[space + 1..]; var next := Find(rest, ' ');
            && line == line[..space] + " " + rest[..next] + " " + rest[next + 1..]
            && ' ' !in line[..space] && ' ' !in rest[..next]
  {
    var space := Find(line, ' ');
    var rest := line[space + 1..];
    CutAt(line, ' ');
    CutAt(rest, ' ');
    Join(line[..space], rest[..Find(rest, ' ')], rest[Find(rest, ' ') + 1..]);
  }

  lemma Join(a: string, b: string, c: string)
    ensures a + " " + (b + " " + c) == a + " " + b + " " + c
  {
  }

  lemma LineSucceeds(r: Request, line: string)
    requires ProcessRequestLine(r, line).succeed
    ensures var space := Find(line, ' ');
            && space < |line|
            && var rest := line[space + 1..]; var next := Find(rest, ' ');
            && next < |rest| && MethodNamed(line[..space]) != Invalid
            && var s := WithTarget(r.(verb := MethodNamed(line[..space])), rest[..next]);
            && ProcessRequestLine(r, line) == WithVersion(s, rest[next + 1..]) && s.verb == MethodNamed(line[..space])
  {
  }

  /** A line that is accepted has the form. */
  lemma AcceptedIsWellFormed(r: Request, line: string) returns (name: string, target: string, version: string)
    requires ProcessRequestLine(r, line).succeed
    ensures IsRequestLine(line, name, target, version)
    ensures ProcessRequestLine(r, line).request.verb == MethodNamed(name)
  {
    LineSucceeds(r, line);
    CutTwice(line);
    name := line[..Find(line, ' ')];
    var rest := line[Find(line, ' ') + 1..];
    target, version := rest[..Find(rest, ' ')], rest[Find(rest, ' ') + 1..];
    MethodIsNamed(name);
    VersionIsNamed(WithTarget(r.(verb := MethodNamed(name)), target), version);
  }

  /** Exactly the lines of that form are accepted. */
  lemma AcceptsExactly(r: Request, line: string)
    ensures ProcessRequestLine(r, line).succeed <==> IsWellFormedLine(line)
  {
    if ProcessRequestLine(r, line).succeed {
      var name, target, version := AcceptedIsWellFormed(r, line);
    }
    if IsWellFormedLine(line) {
      var name, target, version :| IsRequestLine(line, name, target, version);
      WellFormedIsAccepted(r, line, name, target, version);
    }
  }

  lemma TargetKeeps(r: Request, target: string)
    ensures var t := WithTarget(r, target);
            t.verb == r.verb && t.version == r.version && t.headers == r.headers && t.receiveTime == r.receiveTime
  {
  }

  lemma RejectedVersion(r: Request, text: string)
    requires !WithVersion(r, text).succeed
    ensures WithVersion(r, text).request == r
  {
  }

  /** What a rejected line may leave behind: the method, path and query it got to, and nothing else. */
  lemma RejectedLine(r: Request, line: string)
    requires !ProcessRequestLine(r, line).succeed
    ensures var t := ProcessRequestLine(r, line).request;
            t.version == r.version && t.headers == r.headers && t.receiveTime == r.receiveTime
  {
    var space := Find(line, ' ');
    if space < |line| {
      var verb, rest := MethodNamed(line[..space]), line[space + 1..];
      var next := Find(rest, ' ');
      if verb != Invalid && next < |rest| {
        var s := WithTarget(r.(verb := verb), rest[..next]);
        TargetKeeps(r.(verb := verb), rest[..next]);
        RejectedVersion(s, rest[next + 1..]);
      }
    }
  }

  // ------------------------------------------------------------------------ requests

  /** A request held without its blank line: the parser takes it for complete. */
  function Lines(m: Message): string {
    RequestLineOf(m) + CRLF + FieldLines(m.fields)
  }

  /** The field a header line holds. */
  function FieldOf(line: string): Field
    requires ':' in line
  {
    Field(line[..Find(line, ':')], line[Find(line, ':') + 1..])
  }

  lemma FieldIsRead(line: string)
    requires ':' in line && !HasCrlf(line)
    ensures FieldLine(FieldOf(line)) == line && WellFormedField(FieldOf(line))
  {
    CutAt(line, ':');
  }

  lemma LineBefore(s: string)
    requires HasCrlf(s)
    ensures var at := FindCrlf(s);
            s == s[..at] + CRLF + s[at + 2..] && !HasCrlf(s[..at])
  {
    var at := FindCrlf(s);
    assert CrlfAt(s, at) && s[at..at + 2] == CRLF;
    forall i: nat | i < at
      ensures !CrlfAt(s[..at], i)
    {
      assert !CrlfAt(s, i);
    }
    assert IsFirstCrlf(s[..at], at);
  }

  lemma EmptyLineIsNeeded(p: Parser, time: int) returns (body: string)
    requires p.stage == ExpectEmptyline && Parse(p, time).ok
    ensures p.input == CRLF + body
  {
    LineBefore(p.input);
    body := p.input[2..];
    assert FindCrlf(p.input) == 0 && "" + CRLF + p.input[2..] == CRLF + body;
  }

  /** What is accepted after the request line: header lines, each with a colon, and then a blank line and
      any body, or nothing at all. */
  lemma {:induction false} HeadersAccepted(p: Parser, time: int)
    returns (fields: seq<Field>, body: string, complete: bool)
    requires p.stage == ExpectHeaders && Parse(p, time).ok
    ensures forall f | f in fields :: WellFormedField(f)
    ensures p.input == FieldLines(fields) + (if complete then CRLF + body else "")
    decreases |p.input|
  {
    LineBefore(p.input);
    var at := FindCrlf(p.input);
    var line, rest := p.input[..at], p.input[at + 2..];
    var o := Turn(p, time);
    if ':' in line {
      FieldIsRead(line);
      var f := FieldOf(line);
      if rest == "" {
        fields, body, complete := [f], "", false;
        assert [f][1..] == [] && FieldLines([]) == "";
      } else {
        var tail;
        tail, body, complete := HeadersAccepted(o.parser, time);
        fields := [f] + tail;
        assert fields[1..] == tail;
      }
      JoinLines(line, FieldLines(fields[1..]), if complete then CRLF + body else "");
    } else {
      assert o.parser == p.(stage := ExpectEmptyline) && Parse(p, time) == Parse(o.parser, time);
      body := EmptyLineIsNeeded(o.parser, time);
      fields, complete := [], true;
      assert "" + (CRLF + body) == CRLF + body;
    }
  }

  lemma JoinLines(line: string, a: string, b: string)
    ensures line + CRLF + (a + b) == (line + CRLF + a) + b
  {
  }

  /** Whatever is accepted from the start is a well-formed request, whole or without its blank line. */
  lemma AcceptedRequest(p: Parser, time: int) returns (m: Message)
    requires p.stage == ExpectRequestLine && Parse(p, time).ok
    ensures WellFormed(m) && (p.input == Text(m) || p.input == Lines(m))
  {
    LineBefore(p.input);
    var at := FindCrlf(p.input);
    var line, rest := p.input[..at], p.input[at + 2..];
    var name, target, version := AcceptedIsWellFormed(p.request, line);
    var fields, body, complete := [], "", false;
    if rest != "" {
      fields, body, complete := HeadersAccepted(Turn(p, time).parser, time);
    }
    m := Message(MethodNamed(name), target, if version == "HTTP/1.0" then Http10 else Http11, fields, body);
    NamesOf(m, name, version);
    TargetHasNoCrlf(line, name, target, version);
    JoinLines(line, FieldLines(fields), if complete then CRLF + body else "");
    assert Text(m) == RequestLineOf(m) + CRLF + (FieldLines(fields) + (CRLF + body)) by {
      assert FieldLines(fields) + CRLF + body == FieldLines(fields) + (CRLF + body);
    }
    if !complete {
      assert FieldLines(fields) + "" == FieldLines(fields);
    }
  }

  lemma NamesOf(m: Message, name: string, version: string)
    requires m.verb == MethodNamed(name) && IsMethodName(name) && IsVersionName(version)
    requires m.version == if version == "HTTP/1.0" then Http10 else Http11
    ensures m.verb != Invalid && m.version != Unknown
    ensures RequestLineOf(m) == name + " " + m.target + " " + version
  {
  }

  lemma TargetHasNoCrlf(line: string, name: string, target: string, version: string)
    requires line == name + " " + target + " " + version && !HasCrlf(line)
    ensures !HasCrlf(target)
  {
    assert IsFirstCrlf(line, |line|);
    forall i: nat | i < |target|
      ensures !CrlfAt(target, i)
    {
      assert !CrlfAt(line, |name| + 1 + i);
    }
    assert IsFirstCrlf(target, |target|);
  }

  lemma LinesAreAccepted(p: Parser, m: Message, time: int)
    requires p.stage == ExpectRequestLine && WellFormed(m) && p.input == Lines(m)
    ensures Parse(p, time).ok
  {
    var k := |Lines(m)|;
    assert Text(m)[..k] == Lines(m);
    assert m.fields[..|m.fields|] == m.fields;
    assert BehindLine(m, k);
    EarlySuccess(p, m, k, time);
  }

  /** The parser accepts exactly the well-formed requests, whole or without their blank line. */
  lemma ParseAcceptsExactly(p: Parser, time: int)
    requires p.stage == ExpectRequestLine
    ensures Parse(p, time).ok <==> exists m :: WellFormed(m) && (p.input == Text(m) || p.input == Lines(m))
  {
    if Parse(p, time).ok {
      var m := AcceptedRequest(p, time);
    }
    if m :| WellFormed(m) && (p.input == Text(m) || p.input == Lines(m)) {
      if p.input == Text(m) {
        RequestRoundTrip(p, m, time);
      } else {
        LinesAreAccepted(p, m, time);
      }
    }
  }

  /** White space is what `isspace` takes for it: blank, tab, line feed, vertical tab, form feed, return. */
  lemma SpacesAre(c: char)
    ensures IsSpace(c) <==> c as int in {32, 9, 10, 11, 12, 13}
  {
  }
}
