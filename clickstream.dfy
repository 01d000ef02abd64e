/** The clickstream decoders: a Base64 GZIP payload is decompressed to
    text, read line by line with BufferedReader.readLine, and the lines are
    appended with no separator; the three decompress_clickstream_* operations
    then parse that text as a JSON list of one record shape and write it
    back.

    GZIP with UTF-8 decoding and the JSON engine are not opened: they are
    given as functions, None standing for the IOException they throw. */
module Clickstream {
  import opened UdfTypes
  import Base64

  predicate IsLineBreak(c: char) {
    c == '\r' || c == '\n'
  }

  predicate NoLineBreaks(s: string) {
    forall i :: 0 <= i < |s| ==> !IsLineBreak(s[i])
  }

  /** The text with every carriage return and line feed deleted. */
  function StripLineBreaks(s: string): (r: string)
    ensures NoLineBreaks(r) && |r| <= |s|
  {
    if s == [] then []
    else if IsLineBreak(s[0]) then StripLineBreaks(s[1..])
    else [s[0]] + StripLineBreaks(s[1..])
  }

  lemma {:induction false} StripAppend(a: string, b: string)
    ensures StripLineBreaks(a + b) == StripLineBreaks(a) + StripLineBreaks(b)
    decreases |a|
  {
    if a != [] {
      assert (a + b)[1..] == a[1..] + b;
      StripAppend(a[1..], b);
    } else {
      assert a + b == b;
    }
  }

  /** Stripping leaves a text alone exactly when it has no line break. */
  lemma {:induction false} StripIdentityIff(s: string)
    ensures StripLineBreaks(s) == s <==> NoLineBreaks(s)
    decreases |s|
  {
    if s != [] {
      StripIdentityIff(s[1..]);
      if IsLineBreak(s[0]) {
        assert |StripLineBreaks(s[1..])| < |s|;
      } else {
        assert NoLineBreaks(s) <==> NoLineBreaks(s[1..]) by {
          if NoLineBreaks(s[1..]) {
            forall i | 0 <= i < |s| ensures !IsLineBreak(s[i]) {
              if i > 0 {
                assert s[i] == s[1..][i - 1];
              }
            }
          }
          if NoLineBreaks(s) {
            forall i | 0 <= i < |s| - 1 ensures !IsLineBreak(s[1..][i]) {
              assert s[1..][i] == s[i + 1];
            }
          }
        }
      }
    }
  }

  /** How BufferedReader.readLine splits text: line has no line break and
      is followed by "\n", by "\r\n", by a "\r" that no "\n" follows, or by
      the end of the text. */
  ghost predicate LineSplit(text: string, line: string, rest: string) {
    NoLineBreaks(line)
    && (|| (text == line && rest == [] && text != [])
        || text == line + "\n" + rest
        || text == line + "\r\n" + rest
        || (text == line + "\r" + rest && (rest == [] || rest[0] != '\n')))
  }

  /** A line followed by a terminator made only of line breaks strips to
      the line followed by what the rest strips to. */
  lemma StripLine(line: string, terminator: string, rest: string)
    requires NoLineBreaks(line) && StripLineBreaks(terminator) == []
    ensures StripLineBreaks(line + terminator + rest) == line + StripLineBreaks(rest)
  {
    StripIdentityIff(line);
    StripAppend(line + terminator, rest);
    StripAppend(line, terminator);
  }

  /** What the line joining does to the rest of the text: the line, then
      whatever the rest strips to. */
  lemma LineSplitStrips(text: string, line: string, rest: string)
    requires LineSplit(text, line, rest)
    ensures StripLineBreaks(text) == line + StripLineBreaks(rest)
  {
    if text == line + "\n" + rest {
      StripLine(line, "\n", rest);
    } else if text == line + "\r\n" + rest {
      assert StripLineBreaks("\r\n") == StripLineBreaks("\n");
      StripLine(line, "\r\n", rest);
    } else if text == line + "\r" + rest {
      StripLine(line, "\r", rest);
    } else {
      assert text == line + [] + [];
      StripLine(line, [], []);
    }
  }

  /** A BufferedReader over the decompressed text: rest is what is still
      unread. */
  class BufferedReader {
    var rest: string

    constructor (text: string)
      ensures rest == text
    {
      rest := text;
    }

    /** readLine: the characters up to the next line terminator, which is
        consumed but not returned; null at the end of the text. */
    method ReadLine() returns (line: Option<string>)
      modifies this
      ensures line.None? <==> old(rest) == []
      ensures line.None? ==> rest == []
      ensures line.Some? ==> LineSplit(old(rest), line.value, rest) && |rest| < |old(rest)|
    {
      if rest == [] {
        return None;
      }
      var i := 0;
      while i < |rest| && !IsLineBreak(rest[i])
        invariant 0 <= i <= |rest|
        invariant NoLineBreaks(rest[..i])
      {
        i := i + 1;
      }
      var text := rest;
      var l := text[..i];
      if i == |text| {
        assert text == l;
        rest := [];
      } else if text[i] == '\r' && i + 1 < |text| && text[i + 1] == '\n' {
        assert text == l + "\r\n" + text[i + 2..];
        rest := text[i + 2..];
      } else {
        assert text == l + [text[i]] + text[i + 1..];
        rest := text[i + 1..];
      }
      line := Some(l);
    }
  }

  /** What decompressClickstreamEvent returns. */
  function ClickstreamText(gunzip: Bytes -> Option<string>, input: string): Result<string> {
    match Base64.Decode(input)
    case None => Err(IllegalBase64)
    case Some(bytes) =>
      match gunzip(bytes)
      case None => Err(MalformedGzip)
      case Some(text) => Ok(StripLineBreaks(text))
  }

  /** decompressClickstreamEvent: Base64-decode, gunzip to text, and append
      every line readLine returns, with nothing between them. */
  method DecompressClickstreamEvent(gunzip: Bytes -> Option<string>, input: string) returns (r: Result<string>)
    ensures r == ClickstreamText(gunzip, input)
    ensures r.Ok? ==> NoLineBreaks(r.value)
  {
    var inputBytes := Base64.Decode(input);
    if inputBytes.None? {
      return Err(IllegalBase64);
    }
    var text := gunzip(inputBytes.value);
    if text.None? {
      return Err(MalformedGzip);
    }
    var bf := new BufferedReader(text.value);
    var outStr: string := [];
    while true
      invariant outStr + StripLineBreaks(bf.rest) == StripLineBreaks(text.value)
      decreases |bf.rest|
    {
      ghost var before := bf.rest;
      var line := bf.ReadLine();
      if line.None? {
        break;
      }
      LineSplitStrips(before, line.value, bf.rest);
      outStr := outStr + line.value;
    }
    assert outStr + [] == outStr;
    r := Ok(outStr);
  }

  /** The three record shapes: EventData (common fields), EventAttributeData
      and EventUserData. */
  datatype RecordShape = CommonFields | AttributeFields | UserFields

  /** What decompress_clickstream_common_fields, _attribute_fields and
      _user_fields return for their shape. */
  function ClickstreamFields(shape: RecordShape, gunzip: Bytes -> Option<string>,
                             json: (RecordShape, string) -> Option<string>, input: Option<string>): Result<Option<string>>
  {
    match input
    case None => Ok(None)
    case Some(s) =>
      var text :- ClickstreamText(gunzip, s);
      match json(shape, text)
      case None => Err(MalformedJson)
      case Some(out) => Ok(Some(out))
  }

  /** decompress_clickstream_*_fields for the given shape: null gives null;
      otherwise the joined text, which has no line break, is parsed as a
      list of records of the shape and written back. */
  method DecompressClickstreamFields(shape: RecordShape, gunzip: Bytes -> Option<string>,
                                     json: (RecordShape, string) -> Option<string>, input: Option<string>)
    returns (r: Result<Option<string>>)
    ensures input.None? ==> r == Ok(None)
    ensures r == ClickstreamFields(shape, gunzip, json, input)
    ensures input.Some? && r.Ok? ==>
      var text := ClickstreamText(gunzip, input.value);
      text.Ok? && NoLineBreaks(text.value) && r.value == json(shape, text.value)
  {
    if input.None? {
      return Ok(None);
    }
    var decompressStr := DecompressClickstreamEvent(gunzip, input.value);
    if decompressStr.Err? {
      return Err(decompressStr.error);
    }
    var eventDataList := json(shape, decompressStr.value);
    if eventDataList.None? {
      return Err(MalformedJson);
    }
    r := Ok(Some(eventDataList.value));
  }
}
