/** The request parser of http/HttpParse.cpp: a state machine that consumes a buffer line by line. */
module HttpParse {
  import opened HttpRequest
  import opened Buffer

  datatype Stage = ExpectRequestLine | ExpectHeaders | ExpectEmptyline | ExpectBody | Success

  datatype Parser = Parser(stage: Stage, request: Request, input: string)

  datatype Outcome = Outcome(parser: Parser, ok: bool, hasMore: bool)

  datatype LineResult = LineResult(request: Request, succeed: bool)

  function WithTarget(r: Request, target: string): Request {
    var question := Find(target, '?');
    var path := target[..question];
    var r := r.(path := path, filename := AfterLastSlash(path));
    if question < |target| then r.(query := target[question..]) else r
  }

  /** What is left of the line is the version. */
  function WithVersion(r: Request, text: string): LineResult {
    if text == "HTTP/1.1" then LineResult(r.(version := Http11), true)
    else if text == "HTTP/1.0" then LineResult(r.(version := Http10), true)
    else LineResult(r, false)
  }

  function ProcessRequestLine(r: Request, line: string): LineResult {
    var space := Find(line, ' ');
    if space == |line| then LineResult(r, false)
    else
      var r := r.(verb := MethodNamed(line[..space]));
      var rest := line[space + 1..];
      var next := Find(rest, ' ');
      if r.verb == Invalid || next == |rest| then LineResult(r, false)
      else WithVersion(WithTarget(r, rest[..next]), rest[next + 1..])
  }

  function WithHeader(r: Request, line: string): Request
    requires Find(line, ':') < |line|
  {
    var colon := Find(line, ':');
    r.(headers := r.headers[line[..colon] := Trimmed(line[colon + 1..])])
  }

  /** After a line: an exhausted buffer counts as the end of the request. */
  function Advance(stage: Stage, request: Request, input: string): Outcome {
    if input == "" then Outcome(Parser(Success, request, input), true, false)
    else Outcome(Parser(stage, request, input), true, true)
  }

  function RequestLine(p: Parser, line: string, rest: string, receiveTime: int): Outcome {
    var result := ProcessRequestLine(p.request, line);
    if result.succeed then Advance(ExpectHeaders, result.request.(receiveTime := receiveTime), rest)
    else Outcome(p.(request := result.request), false, true)
  }

  /** A line without a colon stays in the buffer: the next turn expects it to be empty. */
  function HeaderLine(p: Parser, line: string, rest: string): Outcome {
    if Find(line, ':') < |line| then Advance(ExpectHeaders, WithHeader(p.request, line), rest)
    else Outcome(p.(stage := ExpectEmptyline), true, true)
  }

  /** What becomes of a whole line. */
  function LineTurn(p: Parser, line: string, rest: string, receiveTime: int): Outcome {
    match p.stage
    case ExpectRequestLine => RequestLine(p, line, rest, receiveTime)
    case ExpectHeaders => HeaderLine(p, line, rest)
    case _ => if line == "" then Advance(ExpectBody, p.request, rest) else Outcome(p, false, false)
  }

  /** One turn of the loop. */
  function Turn(p: Parser, receiveTime: int): Outcome {
    var crlf := FindCrlf(p.input);
    if p.stage == Success then Outcome(p, true, true)
    else if p.stage == ExpectBody then Outcome(p.(stage := Success), true, false)
    else if crlf == |p.input| then Outcome(p, false, false)
    else LineTurn(p, p.input[..crlf], p.input[crlf + 2..], receiveTime)
  }

  function Rank(stage: Stage): nat {
    match stage
    case ExpectRequestLine => 4
    case ExpectHeaders => 3
    case ExpectEmptyline => 2
    case ExpectBody => 1
    case Success => 0
  }

  lemma TurnDecreases(p: Parser, receiveTime: int)
    requires p.stage != Success
    ensures var o := Turn(p, receiveTime);
            o.ok && o.hasMore ==>
              o.parser.stage != Success
              && (|o.parser.input| < |p.input|
                  || (|o.parser.input| == |p.input| && Rank(o.parser.stage) < Rank(p.stage)))
    ensures var o := Turn(p, receiveTime);
            !(o.ok && o.hasMore) ==> (o.ok <==> o.parser.stage == Success)
  {
  }

  /** `parseRequest`: turns until one of the flags falls; true exactly when that is in `Success`. */
  function Parse(p: Parser, receiveTime: int): (result: Outcome)
    requires p.stage != Success
    ensures result.ok <==> result.parser.stage == Success
    ensures result.ok ==> !result.hasMore
    decreases |p.input|, Rank(p.stage)
  {
    TurnDecreases(p, receiveTime);
    var o := Turn(p, receiveTime);
    if o.ok && o.hasMore then Parse(o.parser, receiveTime) else o
  }

  class HttpParse {
    var state: Stage
    const request: HttpRequest

    constructor ()
      ensures state == ExpectRequestLine && fresh(request) && request.Value() == FRESH
    {
      state := ExpectRequestLine;
      request := new HttpRequest();
    }

    ghost function Value(buf: Buffer<char>): Parser
      requires buf.Valid()
      reads this, request, buf, buf.buffer
    {
      Parser(state, request.Value(), buf.Contents())
    }

    method ProcessRequestLineOf(line: string) returns (succeed: bool)
      modifies request
      ensures LineResult(request.Value(), succeed) == ProcessRequestLine(old(request.Value()), line)
    {
      succeed := false;
      var space := Find(line, ' ');
      if space != |line| {
        var valid := request.SetMethod(line[..space]);
        if valid {
          var rest := line[space + 1..];
          space := Find(rest, ' ');
          if space != |rest| {
            SetTarget(rest[..space]);
            succeed := SetVersion(rest[space + 1..]);
          }
        }
      }
    }

    method SetTarget(target: string)
      modifies request
      ensures request.Value() == WithTarget(old(request.Value()), target)
    {
      var question := Find(target, '?');
      if question != |target| {
        request.SetPath(target[..question]);
        request.query := target[question..];
      } else {
        request.SetPath(target);
        assert target[..question] == target;
      }
    }

    /** The version is a prefix compared on its own, and then a digit. */
    method SetVersion(text: string) returns (succeed: bool)
      modifies request
      ensures LineResult(request.Value(), succeed) == WithVersion(old(request.Value()), text)
    {
      succeed := |text| == 8 && text[..7] == "HTTP/1.";
      if succeed {
        assert text == text[..7] + [text[7]];
        if text[7] == '1' {
          request.version := Http11;
        } else if text[7] == '0' {
          request.version := Http10;
        } else {
          succeed := false;
        }
      } else {
        assert |text| == 8 ==> text[..7] != "HTTP/1.1"[..7] && text[..7] != "HTTP/1.0"[..7];
      }
    }

    /** `retrieveUntil(crlf + 2)`; whether anything is left. */
    method NextLine(buf: Buffer<char>, crlf: nat, stage: Stage) returns (hasMore: bool)
      requires buf.Valid() && crlf + 2 <= buf.ReadableBytes()
      modifies this, buf`readerIndex, buf`writerIndex
      ensures buf.Valid()
      ensures Outcome(Value(buf), true, hasMore)
              == Advance(stage, request.Value(), old(buf.Contents())[crlf + 2..])
    {
      state := stage;
      buf.Retrieve(crlf + 2);
      hasMore := buf.ReadableBytes() != 0;
      if !hasMore {
        state := Success;
      }
    }

    method RequestLineTurn(buf: Buffer<char>, line: string, receiveTime: int) returns (ok: bool, hasMore: bool)
      requires buf.Valid() && state == ExpectRequestLine
      requires |line| + 2 <= buf.ReadableBytes()
      modifies this, request, buf`readerIndex, buf`writerIndex
      ensures buf.Valid()
      ensures Outcome(Value(buf), ok, hasMore)
              == RequestLine(old(Value(buf)), line, old(buf.Contents())[|line| + 2..], receiveTime)
    {
      hasMore := true;
      ok := ProcessRequestLineOf(line);
      if ok {
        request.receiveTime := receiveTime;
        hasMore := NextLine(buf, |line|, ExpectHeaders);
      }
    }

    method HeaderTurn(buf: Buffer<char>, line: string) returns (hasMore: bool)
      requires buf.Valid() && state == ExpectHeaders
      requires |line| + 2 <= buf.ReadableBytes()
      modifies this, request, buf`readerIndex, buf`writerIndex
      ensures buf.Valid()
      ensures Outcome(Value(buf), true, hasMore)
              == HeaderLine(old(Value(buf)), line, old(buf.Contents())[|line| + 2..])
    {
      var colon := Find(line, ':');
      if colon != |line| {
        request.AddHeader(line, colon);
        hasMore := NextLine(buf, |line|, ExpectHeaders);
      } else {
        state, hasMore := ExpectEmptyline, true;
      }
    }

    method LineTurnOnce(buf: Buffer<char>, line: string, receiveTime: int) returns (ok: bool, hasMore: bool)
      requires buf.Valid() && state != ExpectBody && state != Success
      requires |line| + 2 <= buf.ReadableBytes()
      modifies this, request, buf`readerIndex, buf`writerIndex
      ensures buf.Valid()
      ensures Outcome(Value(buf), ok, hasMore)
              == LineTurn(old(Value(buf)), line, old(buf.Contents())[|line| + 2..], receiveTime)
    {
      ok := true;
      if state == ExpectRequestLine {
        ok, hasMore := RequestLineTurn(buf, line, receiveTime);
      } else if state == ExpectHeaders {
        hasMore := HeaderTurn(buf, line);
      } else if |line| == 0 {
        hasMore := NextLine(buf, 0, ExpectBody);
      } else {
        ok, hasMore := false, false;
      }
    }

    method TurnOnce(buf: Buffer<char>, receiveTime: int) returns (ok: bool, hasMore: bool)
      requires buf.Valid()
      modifies this, request, buf`readerIndex, buf`writerIndex
      ensures buf.Valid()
      ensures Outcome(Value(buf), ok, hasMore) == Turn(old(Value(buf)), receiveTime)
    {
      ok, hasMore := true, true;
      var text := buf.buffer[buf.readerIndex..buf.writerIndex];
      var crlf := FindCrlf(text);
      if state == Success {
      } else if state == ExpectBody {
        state, hasMore := Success, false;
      } else if crlf == |text| {
        ok, hasMore := false, false;
      } else {
        ok, hasMore := LineTurnOnce(buf, text[..crlf], receiveTime);
      }
    }

    method ParseRequest(buf: Buffer<char>, receiveTime: int) returns (ok: bool)
      requires buf.Valid() && state != Success
      modifies this, request, buf`readerIndex, buf`writerIndex
      ensures buf.Valid()
      ensures var o := Parse(old(Value(buf)), receiveTime); Value(buf) == o.parser && ok == o.ok
      ensures ok <==> state == Success
    {
      ok := true;
      var hasMore := true;
      while hasMore && ok
        invariant buf.Valid()
        invariant hasMore && ok ==> state != Success
        invariant hasMore && ok ==> Parse(Value(buf), receiveTime) == Parse(old(Value(buf)), receiveTime)
        invariant !(hasMore && ok) ==> Outcome(Value(buf), ok, hasMore) == Parse(old(Value(buf)), receiveTime)
        decreases hasMore && ok, buf.ReadableBytes(), Rank(state)
      {
        TurnDecreases(Value(buf), receiveTime);
        ok, hasMore := TurnOnce(buf, receiveTime);
      }
    }
  }
}
