/**
 * The consumer-side message gate of crawler/src/messages.rs: a content-type check against the
 * configured type (`*` accepts anything), then the body, decoded as UTF-8, loses every
 * backslash and line feed before it is parsed as JSON.
 */
module Messages {
  import opened Basics

  /** The JSON record; its two `f64` coordinates are not part of this model. */
  datatype JsonMessage = JsonMessage(timestamp: int, deviceId: string, bumpiness: int)

  /** A delivery: its `content_type` property, its raw bytes, and the configured type. */
  datatype QueueMessage = QueueMessage(contentType: Option<string>, data: seq<bv8>, expectedContentType: string)

  /** `QueueMessage::new`: the `EXPECTED_CONTENT_TYPE` variable, or `*` when it is not set. */
  function New(contentType: Option<string>, data: seq<bv8>, expectedVar: Option<string>): (m: QueueMessage)
    ensures expectedVar.None? ==> m.expectedContentType == "*"
    ensures expectedVar.Some? ==> m.expectedContentType == expectedVar.value
    ensures m.contentType == contentType && m.data == data
  {
    QueueMessage(contentType, data, expectedVar.GetOr("*"))
  }

  /** The `status` match of `parse_message`. */
  function Supported(expected: string, contentType: Option<string>): (ok: bool)
    ensures ok <==> expected == "*" || contentType == Some(expected)
  {
    match contentType
    case Some(ct) => if expected == "*" then true else expected == ct
    case None => if expected == "*" then true else false
  }

  /** `s.replace(c, "")` for a one-character pattern. */
  function Remove(s: string, c: char): (r: string)
    ensures |r| <= |s|
  {
    if s == [] then [] else (if s[0] == c then [] else [s[0]]) + Remove(s[1..], c)
  }

  /** `body.replace("\\", "").replace("\n", "")` */
  function Sanitize(body: string): string {
    Remove(Remove(body, '\\'), '\n')
  }

  /** The characters of `s` other than backslash and line feed, in order: one filtering pass. */
  function KeepPlain(s: string): string {
    if s == [] then [] else (if s[0] == '\\' || s[0] == '\n' then [] else [s[0]]) + KeepPlain(s[1..])
  }

  lemma {:induction false} RemoveAppend(a: string, b: string, c: char)
    ensures Remove(a + b, c) == Remove(a, c) + Remove(b, c)
    decreases |a|
  {
    if a == [] {
      assert a + b == b;
    } else {
      assert (a + b)[1..] == a[1..] + b;
      RemoveAppend(a[1..], b, c);
    }
  }

  /** The two `replace` calls together are one filtering pass. */
  lemma {:induction false} SanitizeKeepsPlain(s: string)
    ensures Sanitize(s) == KeepPlain(s)
    decreases |s|
  {
    if s != [] {
      var head := if s[0] == '\\' then [] else [s[0]];
      RemoveAppend(head, Remove(s[1..], '\\'), '\n');
      SanitizeKeepsPlain(s[1..]);
    }
  }

  /** The filtered text has no backslash and no line feed, and keeps every other character. */
  lemma {:induction false} KeepPlainChars(s: string)
    ensures '\\' !in KeepPlain(s) && '\n' !in KeepPlain(s)
    ensures forall c | c != '\\' && c != '\n' :: multiset(KeepPlain(s))[c] == multiset(s)[c]
    decreases |s|
  {
    if s != [] {
      KeepPlainChars(s[1..]);
      assert s == [s[0]] + s[1..];
    }
  }

  /** Text with neither character passes unchanged, so sanitising twice is sanitising once. */
  lemma {:induction false} KeepPlainUnchanged(s: string)
    requires '\\' !in s && '\n' !in s
    ensures KeepPlain(s) == s
    decreases |s|
  {
    if s != [] {
      KeepPlainUnchanged(s[1..]);
    }
  }

  lemma SanitizeIdempotent(s: string)
    ensures Sanitize(Sanitize(s)) == Sanitize(s)
  {
    SanitizeKeepsPlain(s);
    KeepPlainChars(s);
    SanitizeKeepsPlain(Sanitize(s));
    KeepPlainUnchanged(Sanitize(s));
  }

  /**
   * `parse_message`: an unsupported content type is refused without reading the body;
   * otherwise the body is decoded (`from_utf8(..).unwrap()`, so it must be UTF-8) and its
   * sanitised text goes to the JSON parser, whose result is returned.
   */
  function ParseMessage(m: QueueMessage, decodeUtf8: seq<bv8> -> Option<string>,
                        fromJson: string -> Result<JsonMessage, string>): (r: Result<JsonMessage, string>)
    requires Supported(m.expectedContentType, m.contentType) ==> decodeUtf8(m.data).Some?
    ensures !Supported(m.expectedContentType, m.contentType) ==> r == Failure("Unsupported content type")
    ensures Supported(m.expectedContentType, m.contentType) ==>
              var text := KeepPlain(decodeUtf8(m.data).value);
              && r == fromJson(text)
              && '\\' !in text && '\n' !in text
  {
    if !Supported(m.expectedContentType, m.contentType) then Failure("Unsupported content type")
    else
      var body := decodeUtf8(m.data).value;
      SanitizeKeepsPlain(body);
      KeepPlainChars(body);
      fromJson(Sanitize(body))
  }
}
