/**
 * The JSON-lines writer of crawler/src/agents/crawler_writer.rs. It receives responses from a
 * channel, drops those whose clean text is empty, replaces each other body by its clean text,
 * and appends the JSON lines to a file in batches of ten. The channel is the sequence of
 * responses still to arrive; the file is the sequence of strings written to it, in order.
 */
module CrawlerWriter {
  import opened Basics
  import opened Http
  import HttpParser

  /** The batch size of the buffer. */
  const Threshold: nat := 10

  /** The extraction and serialisation functions the writer calls. */
  datatype Tools = Tools(
    removeBlocks: string -> string, // the script, style and comment regexes of `parse_http`
    stem: string -> string,         // the English stemmer
    encode: HttpResponse -> string  // serde_json::to_string
  )

  /** The response written for `res`: its links (none without `extra`) and its clean text as body. */
  function Record(res: HttpResponse, clean: string): (r: HttpResponse)
    ensures r.extra.Some? && r.extra.value.body == clean
    ensures r.extra.value.links == (if res.extra.Some? then res.extra.value.links else [])
    ensures r.title == res.title && r.statusCode == res.statusCode && r.headers == res.headers && r.meta == res.meta
  {
    res.(extra := Some(Extra(if res.extra.Some? then res.extra.value.links else [], clean)))
  }

  /** The clean text `parse_http` extracts from `res`. */
  function CleanOf(res: HttpResponse, t: Tools): string {
    HttpParser.CleanBody(res, t.removeBlocks)
  }

  /** The JSON line for one response: none when its clean text is empty. */
  function LineFor(res: HttpResponse, t: Tools): seq<string> {
    var clean := CleanOf(res, t);
    if clean == [] then [] else [t.encode(Record(res, clean))]
  }

  /** The JSON lines for the responses `rs`, in arrival order. */
  function Accepted(rs: seq<HttpResponse>, t: Tools): (r: seq<string>)
    ensures |r| <= |rs|
  {
    if rs == [] then [] else Accepted(rs[..|rs| - 1], t) + LineFor(rs[|rs| - 1], t)
  }

  /** What `write_all(format!("{}\n", line))` appends for each line. */
  function Newlined(lines: seq<string>): (r: seq<string>)
    ensures |r| == |lines|
  {
    seq(|lines|, i requires 0 <= i < |lines| => lines[i] + "\n")
  }

  lemma NewlinedAppend(a: seq<string>, b: seq<string>)
    ensures Newlined(a + b) == Newlined(a) + Newlined(b)
  {
  }

  lemma AcceptedSnoc(rs: seq<HttpResponse>, res: HttpResponse, t: Tools)
    ensures Accepted(rs + [res], t) == Accepted(rs, t) + LineFor(res, t)
  {
    assert (rs + [res])[..|rs|] == rs;
  }

  /** The written form of the first `n + 1` responses: that of the first `n`, then the next one's line. */
  lemma AcceptedStep(rs: seq<HttpResponse>, n: nat, t: Tools)
    requires n < |rs|
    ensures Newlined(Accepted(rs[..n + 1], t)) == Newlined(Accepted(rs[..n], t)) + Newlined(LineFor(rs[n], t))
  {
    assert rs[..n + 1] == rs[..n] + [rs[n]];
    AcceptedSnoc(rs[..n], rs[n], t);
    NewlinedAppend(Accepted(rs[..n], t), LineFor(rs[n], t));
  }

  /** Responses whose clean text is empty are never written. */
  lemma {:induction false} EmptyTextNeverWritten(rs: seq<HttpResponse>, t: Tools)
    requires forall i | 0 <= i < |rs| :: CleanOf(rs[i], t) == []
    ensures Accepted(rs, t) == []
    decreases |rs|
  {
    if rs != [] {
      EmptyTextNeverWritten(rs[..|rs| - 1], t);
    }
  }

  /**
   * Every response with clean text is written, once, in arrival order, with its links and
   * its clean text.
   */
  lemma {:induction false} TextAlwaysWritten(rs: seq<HttpResponse>, t: Tools)
    requires forall i | 0 <= i < |rs| :: CleanOf(rs[i], t) != []
    ensures |Accepted(rs, t)| == |rs|
    ensures forall i | 0 <= i < |rs| :: Accepted(rs, t)[i] == t.encode(Record(rs[i], CleanOf(rs[i], t)))
    decreases |rs|
  {
    if rs != [] {
      TextAlwaysWritten(rs[..|rs| - 1], t);
    }
  }

  /** `for line in lines { file.write_all(format!("{}\n", line)) }` */
  method WriteLines(file: seq<string>, lines: seq<string>) returns (out: seq<string>)
    ensures out == file + Newlined(lines)
  {
    out := file;
    for i := 0 to |lines|
      invariant out == file + Newlined(lines[..i])
    {
      out := out + [lines[i] + "\n"];
      assert lines[..i + 1] == lines[..i] + [lines[i]];
      NewlinedAppend(lines[..i], [lines[i]]);
    }
    assert lines[..|lines|] == lines;
  }

  /**
   * One turn of the loop of `listen_and_write` after the count: a response with clean text
   * has its line buffered, and a full buffer is written out and emptied.
   */
  method Take(response: HttpResponse, t: Tools, buffer: seq<string>, out: seq<string>)
    returns (buffer': seq<string>, out': seq<string>)
    requires |buffer| < Threshold
    ensures |buffer'| < Threshold
    ensures out' + Newlined(buffer') == out + Newlined(buffer) + Newlined(LineFor(response, t))
    ensures out <= out'
    ensures |buffer + LineFor(response, t)| < Threshold ==>
      out' == out && buffer' == buffer + LineFor(response, t)
    ensures |buffer + LineFor(response, t)| >= Threshold ==>
      buffer' == [] && out' == out + Newlined(buffer + LineFor(response, t))
  {
    buffer', out' := buffer, out;
    var metadata := HttpParser.ParseHttp(response, t.removeBlocks, t.stem);
    if metadata.cleanText == [] {
      assert out + Newlined(buffer) + Newlined([]) == out + Newlined(buffer);
      return;
    }
    var jsonLine := t.encode(Record(response, metadata.cleanText));
    NewlinedAppend(buffer, [jsonLine]);
    buffer' := buffer + [jsonLine];
    if |buffer'| >= Threshold {
      out' := WriteLines(out, buffer');
      buffer' := [];
      assert out' + Newlined(buffer') == out' + [];
    }
  }

  class CrawlerWriter {
    /** The responses still to arrive, in arrival order; the loop ends when the channel closes. */
    var channel: seq<HttpResponse>

    constructor New(channel: seq<HttpResponse>)
      ensures this.channel == channel
    {
      this.channel := channel;
    }

    /**
     * `listen_and_write`: count every response; skip those with empty clean text; buffer the
     * JSON line of each other one and write the buffer out whenever it reaches ten lines; at
     * the close write what is left. The file is opened for appending, so it keeps its earlier
     * contents, and the lines follow in arrival order.
     */
    method ListenAndWrite(file: seq<string>, t: Tools) returns (out: seq<string>, count: nat)
      modifies this
      ensures channel == []
      ensures out == file + Newlined(Accepted(old(channel), t))
      ensures count == |old(channel)|
    {
      var buffer: seq<string> := [];
      count := 0;
      out := file;
      ghost var all := channel;
      while channel != []
        invariant count <= |all| && channel == all[count..]
        invariant |buffer| < Threshold
        invariant out + Newlined(buffer) == file + Newlined(Accepted(all[..count], t))
        decreases |channel|
      {
        var response := channel[0];
        channel := channel[1..];
        AcceptedStep(all, count, t);
        count := count + 1;
        buffer, out := Take(response, t, buffer, out);
      }
      assert all[..count] == all;
      out := WriteLines(out, buffer);
    }
  }
}
