/** A parsed request (http/HttpRequest.h): its value, and the object whose setters the parser calls. */
module HttpRequest {

  datatype Method = Invalid | Get | Post | Head
  datatype Version = Unknown | Http10 | Http11

  datatype Request = Request(
    verb: Method, version: Version, path: string, filename: string, query: string, receiveTime: int,
    headers: map<string, string>)

  const FRESH := Request(Invalid, Unknown, "", "", "", 0, map[])

  function MethodString(verb: Method): string {
    match verb
    case Get => "GET"
    case Post => "POST"
    case Head => "HEAD"
    case Invalid => "UNKNOWN"
  }

  function VersionString(version: Version): string {
    match version
    case Http10 => "HTTP/1.0"
    case Http11 => "HTTP/1.1"
    case Unknown => "UNKNOWN"
  }

  function MethodNamed(text: string): Method {
    if text == "GET" then Get else if text == "POST" then Post else if text == "HEAD" then Head else Invalid
  }

  /** `std::find`: the first occurrence, or the end. */
  function Find(s: string, c: char): (at: nat)
    ensures IsFirst(s, c, at)
  {
    if s == "" || s[0] == c then 0 else 1 + Find(s[1..], c)
  }

  predicate IsFirst(s: string, c: char, at: nat) {
    at <= |s| && (forall i | 0 <= i < at :: s[i] != c) && (at < |s| ==> s[at] == c)
  }

  predicate CrlfAt(s: string, i: nat) {
    i + 1 < |s| && s[i] == '\r' && s[i + 1] == '\n'
  }

  /** The first line end, or the end of the text when there is none. */
  function FindCrlf(s: string): (at: nat)
    ensures IsFirstCrlf(s, at)
  {
    if s == "" || CrlfAt(s, 0) then 0
    else
      var rest := FindCrlf(s[1..]);
      assert forall i: nat | 1 <= i :: CrlfAt(s, i) == CrlfAt(s[1..], i - 1);
      1 + rest
  }

  predicate IsFirstCrlf(s: string, at: nat) {
    at <= |s| && (forall i: nat | i < at :: !CrlfAt(s, i)) && (at < |s| ==> CrlfAt(s, at))
  }

  predicate HasCrlf(s: string) {
    FindCrlf(s) < |s|
  }

  /** `find_last_of`: what follows the last slash, everything when there is none. */
  function AfterLastSlash(path: string): string {
    if '/' !in path then path
    else if path[|path| - 1] == '/' then ""
    else AfterLastSlash(path[..|path| - 1]) + [path[|path| - 1]]
  }

  lemma {:induction false} FilenameIsLastSegment(path: string)
    ensures var file := AfterLastSlash(path);
            && '/' !in file && |file| <= |path| && path[|path| - |file|..] == file
            && (if '/' in path then |file| < |path| && path[|path| - |file| - 1] == '/' else file == path)
  {
    if '/' in path && path[|path| - 1] != '/' {
      var shorter := path[..|path| - 1];
      assert path == shorter + [path[|path| - 1]];
      FilenameIsLastSegment(shorter);
      assert path[|path| - |AfterLastSlash(path)|..]
          == shorter[|shorter| - |AfterLastSlash(shorter)|..] + [path[|path| - 1]];
    }
  }

  predicate IsSpace(c: char) {
    c == ' ' || '\t' <= c <= '\r'
  }

  predicate AllSpace(s: string) {
    forall c | c in s :: IsSpace(c)
  }

  predicate IsTrim(s: string) {
    s == "" || (!IsSpace(s[0]) && !IsSpace(s[|s| - 1]))
  }

  function TrimFront(s: string): string {
    if s != "" && IsSpace(s[0]) then TrimFront(s[1..]) else s
  }

  function TrimBack(s: string): string {
    if s != "" && IsSpace(s[|s| - 1]) then TrimBack(s[..|s| - 1]) else s
  }

  function Trimmed(s: string): string {
    TrimBack(TrimFront(s))
  }

  lemma {:induction false} TrimFrontDrops(pad: string, s: string)
    requires AllSpace(pad)
    ensures TrimFront(pad + s) == TrimFront(s)
  {
    if pad == "" {
      assert pad + s == s;
    } else {
      assert pad[0] in pad && (pad + s)[1..] == pad[1..] + s;
      TrimFrontDrops(pad[1..], s);
    }
  }

  lemma {:induction false} TrimBackDrops(s: string, pad: string)
    requires AllSpace(pad)
    ensures TrimBack(s + pad) == TrimBack(s)
  {
    if pad == "" {
      assert s + pad == s;
    } else {
      assert pad[|pad| - 1] in pad && (s + pad)[..|s + pad| - 1] == s + pad[..|pad| - 1];
      TrimBackDrops(s, pad[..|pad| - 1]);
    }
  }

  lemma TrimmedAllSpace(pad: string)
    requires AllSpace(pad)
    ensures Trimmed(pad) == ""
  {
    assert pad + "" == pad;
    TrimFrontDrops(pad, "");
  }

  /** Trimming takes away exactly the white space around a value that has none at its ends. */
  lemma TrimmedIsTheMiddle(before: string, value: string, after: string)
    requires AllSpace(before) && IsTrim(value) && AllSpace(after)
    ensures Trimmed(before + value + after) == value
  {
    if value == "" {
      assert before + value + after == before + after;
      TrimmedAllSpace(before + after);
    } else {
      assert before + value + after == before + (value + after);
      TrimFrontDrops(before, value + after);
      assert (value + after)[0] == value[0];
      TrimBackDrops(value, after);
    }
  }

  lemma {:induction false} TrimmingFront(s: string) returns (pad: string)
    ensures s == pad + TrimFront(s) && AllSpace(pad)
    ensures TrimFront(s) == "" || !IsSpace(TrimFront(s)[0])
  {
    if s != "" && IsSpace(s[0]) {
      var rest := TrimmingFront(s[1..]);
      pad := [s[0]] + rest;
      assert s == [s[0]] + s[1..];
    } else {
      pad := "";
    }
  }

  lemma {:induction false} TrimmingBack(s: string) returns (pad: string)
    ensures s == TrimBack(s) + pad && AllSpace(pad)
    ensures TrimBack(s) == "" || !IsSpace(TrimBack(s)[|TrimBack(s)| - 1])
  {
    if s != "" && IsSpace(s[|s| - 1]) {
      var rest := TrimmingBack(s[..|s| - 1]);
      pad := rest + [s[|s| - 1]];
      assert s == s[..|s| - 1] + [s[|s| - 1]];
    } else {
      pad := "";
    }
  }

  /** Every value has such a middle. */
  lemma Trimming(s: string) returns (before: string, after: string)
    ensures s == before + Trimmed(s) + after
    ensures AllSpace(before) && AllSpace(after) && IsTrim(Trimmed(s))
  {
    before := TrimmingFront(s);
    after := TrimmingBack(TrimFront(s));
    var value := Trimmed(s);
    assert before + (value + after) == before + value + after;
    assert value != "" ==> value[0] == TrimFront(s)[0];
  }

  class HttpRequest {
    var verb: Method
    var version: Version
    var path: string
    var filename: string
    var query: string
    var receiveTime: int
    var headers: map<string, string>

    ghost function Value(): Request
      reads this
    {
      Request(verb, version, path, filename, query, receiveTime, headers)
    }

    constructor ()
      ensures Value() == FRESH
    {
      verb, version, path, filename, query, receiveTime, headers := Invalid, Unknown, "", "", "", 0, map[];
    }

    method SetMethod(text: string) returns (valid: bool)
      modifies this`verb
      ensures Value() == old(Value()).(verb := MethodNamed(text))
      ensures valid == (verb != Invalid)
    {
      if text == "GET" {
        verb := Get;
      } else if text == "POST" {
        verb := Post;
      } else if text == "HEAD" {
        verb := Head;
      } else {
        verb := Invalid;
      }
      valid := verb != Invalid;
    }

    method SetPath(text: string)
      modifies this`path, this`filename
      ensures Value() == old(Value()).(path := text, filename := AfterLastSlash(text))
    {
      path := text;
      filename := AfterLastSlash(text);
    }

    /** `text` starts at the header line, `colon` is the position of its first colon. */
    method AddHeader(text: string, colon: nat)
      requires colon < |text|
      modifies this`headers
      ensures Value() == old(Value()).(headers := old(headers)[text[..colon] := Trimmed(text[colon + 1..])])
    {
      var field := text[..colon];
      var start := colon + 1;
      while start < |text| && IsSpace(text[start])
        invariant start <= |text|
        invariant TrimFront(text[start..]) == TrimFront(text[colon + 1..])
      {
        assert text[start..][1..] == text[start + 1..];
        start := start + 1;
      }
      var value := text[start..];
      while value != "" && IsSpace(value[|value| - 1])
        invariant TrimBack(value) == Trimmed(text[colon + 1..])
        decreases |value|
      {
        value := value[..|value| - 1];
      }
      headers := headers[field := value];
    }
  }
}
