/**
 * The request-logging and CORS middleware of the gin server plugin: a response
 * writer that copies every chunk the handlers pass to `Write` into a buffer, the rule
 * that turns that buffer into the body text of the request log line (trim the
 * newlines at both ends, cut long bodies, hide the body of `/metrics`), and
 * the short-circuit that answers every OPTIONS request with 204.
 */
module GinServer {

  newtype byte = x: int | 0 <= x < 256

  /** `MAX_PRINT_BODY_LEN`. */
  const MaxPrintBodyLen: nat := 1024

  const Newline: byte := 10

  /** The log body of a `/metrics` request: the bytes of "ignore...". */
  const Placeholder: seq<byte> := [105, 103, 110, 111, 114, 101, 46, 46, 46]

  const MetricsPrefix: string := "/metrics"

  /** `http.StatusNoContent`. */
  const NoContent: int := 204

  /** The bytes a sequence of writes puts out, in order. */
  function Concat(chunks: seq<seq<byte>>): seq<byte>
  {
    if chunks == [] then [] else Concat(chunks[..|chunks| - 1]) + chunks[|chunks| - 1]
  }

  /** A `bytes.Buffer`: what has been written to it. */
  class Buffer {
    var data: seq<byte>

    /** `bytes.NewBufferString("")`. */
    constructor ()
      ensures data == []
    {
      data := [];
    }

    /** `Buffer.Write`: appends all of `b`; it never fails. */
    method Write(b: seq<byte>) returns (n: nat)
      modifies this
      ensures data == old(data) + b
      ensures n == |b|
    {
      data := data + b;
      n := |b|;
    }
  }

  /** The response writer the middleware wraps: the bytes sent to the client so far. */
  class ResponseWriter {
    var written: seq<byte>

    constructor ()
      ensures written == []
    {
      written := [];
    }

    /** Sends all of `b` to the client. */
    method Write(b: seq<byte>) returns (n: nat)
      modifies this
      ensures written == old(written) + b
      ensures n == |b|
    {
      written := written + b;
      n := |b|;
    }
  }

  /**
   * `bodyLogWriter`: the wrapped writer and the buffer that keeps a copy of the
   * body.  Only `Write` is overridden; the embedded writer's other methods are
   * not part of this model.
   */
  class BodyLogWriter {
    const inner: ResponseWriter
    const bodyBuf: Buffer

    constructor (inner: ResponseWriter, bodyBuf: Buffer)
      ensures this.inner == inner && this.bodyBuf == bodyBuf
    {
      this.inner, this.bodyBuf := inner, bodyBuf;
    }

    /** `bodyLogWriter.Write`: copy the chunk into the buffer, then forward it. */
    method Write(b: seq<byte>) returns (n: nat)
      modifies bodyBuf, inner
      ensures bodyBuf.data == old(bodyBuf.data) + b
      ensures inner.written == old(inner.written) + b
      ensures n == |b|
    {
      var _ := bodyBuf.Write(b);
      n := inner.Write(b);
    }
  }

  /** `s` with its leading newlines removed. */
  function TrimLeft(s: seq<byte>): (r: seq<byte>)
    ensures |r| <= |s| && r == s[|s| - |r|..]
    ensures forall k :: 0 <= k < |s| - |r| ==> s[k] == Newline
    ensures r == [] || r[0] != Newline
  {
    if s != [] && s[0] == Newline then TrimLeft(s[1..]) else s
  }

  /** `s` with its trailing newlines removed. */
  function TrimRight(s: seq<byte>): (r: seq<byte>)
    ensures |r| <= |s| && r == s[..|r|]
    ensures forall k :: |r| <= k < |s| ==> s[k] == Newline
    ensures r == [] || r[|r| - 1] != Newline
  {
    if s != [] && s[|s| - 1] == Newline then TrimRight(s[..|s| - 1]) else s
  }

  /** `strings.Trim(s, "\n")`. */
  function TrimNewlines(s: seq<byte>): seq<byte>
  {
    TrimRight(TrimLeft(s))
  }

  /** The body text `loggingMiddleware` hands to `requestEnd`: trimmed, and cut to 1023 bytes when over 1024. */
  function LogBody(body: seq<byte>): (r: seq<byte>)
    ensures |r| <= MaxPrintBodyLen
    ensures |r| <= |TrimNewlines(body)| && r == TrimNewlines(body)[..|r|]
    ensures r == TrimNewlines(body) <==> |TrimNewlines(body)| <= MaxPrintBodyLen
    ensures |TrimNewlines(body)| > MaxPrintBodyLen ==> |r| == MaxPrintBodyLen - 1
  {
    var t := TrimNewlines(body);
    if |t| > MaxPrintBodyLen then t[..MaxPrintBodyLen - 1] else t
  }

  /** `strings.HasPrefix(uri, "/metrics")`. */
  predicate IsMetrics(uri: string)
  {
    |uri| >= |MetricsPrefix| && uri[..|MetricsPrefix|] == MetricsPrefix
  }

  /** The body text `requestEnd` logs. */
  function RequestEndBody(uri: string, strBody: seq<byte>): seq<byte>
  {
    if IsMetrics(uri) then Placeholder else strBody
  }

  /** What `cors` does with a request. */
  datatype Decision = AbortWithStatus(status: int) | Next

  /** `cors`: an OPTIONS request is answered at once with 204; any other goes on down the chain. */
  function Cors(requestMethod: string): (d: Decision)
    ensures d == AbortWithStatus(NoContent) <==> requestMethod == "OPTIONS"
    ensures d == Next <==> requestMethod != "OPTIONS"
  {
    if requestMethod == "OPTIONS" then AbortWithStatus(NoContent) else Next
  }

  /**
   * `loggingMiddleware` followed by the body part of `requestEnd`: the
   * handlers down the chain (`ctx.Next()`) write `chunks` through the wrapping
   * writer; the client receives them unchanged, and the body text logged for
   * the request is computed from the copy.
   */
  method LoggingMiddleware(writer: ResponseWriter, uri: string, chunks: seq<seq<byte>>)
    returns (strBody: seq<byte>, ghost captured: seq<byte>)
    modifies writer
    ensures writer.written == old(writer.written) + Concat(chunks)
    ensures captured == Concat(chunks)
    ensures strBody == RequestEndBody(uri, LogBody(captured))
  {
    var buf := new Buffer();
    var blw := new BodyLogWriter(writer, buf);
    for i := 0 to |chunks|
      invariant buf.data == Concat(chunks[..i])
      invariant writer.written == old(writer.written) + Concat(chunks[..i])
    {
      assert chunks[..i + 1][..i] == chunks[..i];
      var _ := blw.Write(chunks[i]);
    }
    assert chunks[..|chunks|] == chunks;
    captured := buf.data;
    strBody := TrimNewlines(buf.data);
    if |strBody| > MaxPrintBodyLen {
      strBody := strBody[..MaxPrintBodyLen - 1];
    }
    if IsMetrics(uri) {
      strBody := Placeholder;
    }
  }

  // ---------------------------------------------------------------------------
  // Properties of the log body

  /** Write by write, the capture buffer holds exactly the chunks, in order. */
  lemma {:induction false} ConcatAppend(xs: seq<seq<byte>>, ys: seq<seq<byte>>)
    ensures Concat(xs + ys) == Concat(xs) + Concat(ys)
    decreases |ys|
  {
    if ys == [] {
      assert xs + ys == xs;
    } else {
      var init := ys[..|ys| - 1];
      var all := xs + ys;
      assert all[..|all| - 1] == xs + init && all[|all| - 1] == ys[|ys| - 1];
      ConcatAppend(xs, init);
    }
  }

  /** The trimmed body is a slice of the body with only newlines cut away, and has no newline at either end. */
  lemma TrimNewlinesShape(s: seq<byte>) returns (i: nat, j: nat)
    ensures i <= j <= |s| && TrimNewlines(s) == s[i..j]
    ensures forall k :: 0 <= k < i ==> s[k] == Newline
    ensures forall k :: j <= k < |s| ==> s[k] == Newline
    ensures i == j || (s[i] != Newline && s[j - 1] != Newline)
  {
    var l := TrimLeft(s);
    i := |s| - |l|;
    var r := TrimRight(l);
    j := i + |r|;
    assert r == s[i..j] by {
      assert l == s[i..];
      assert r == l[..|r|];
    }
    forall k | j <= k < |s| ensures s[k] == Newline {
      assert s[k] == l[k - i];
    }
  }

  /** The trimmed body is the only such slice: any cut of leading and trailing newlines that leaves no newline at either end gives it. */
  lemma {:induction false} TrimNewlinesUnique(s: seq<byte>, i: nat, j: nat)
    requires i <= j <= |s|
    requires forall k :: 0 <= k < i ==> s[k] == Newline
    requires forall k :: j <= k < |s| ==> s[k] == Newline
    requires i == j || (s[i] != Newline && s[j - 1] != Newline)
    requires i == j ==> forall k :: 0 <= k < |s| ==> s[k] == Newline
    ensures TrimNewlines(s) == s[i..j]
  {
    if i == j {
      assert TrimLeft(s) == [] by {
        TrimLeftUnique(s, |s|);
      }
    } else {
      var l := s[i..];
      assert TrimLeft(s) == l by {
        TrimLeftUnique(s, i);
      }
      TrimRightSuffix(s, i, j);
    }
  }

  /** Trimming the suffix of `s` from `i` on stops at the last byte before `j` that is not a newline. */
  lemma TrimRightSuffix(s: seq<byte>, i: nat, j: nat)
    requires i < j <= |s|
    requires forall k :: j <= k < |s| ==> s[k] == Newline
    requires s[j - 1] != Newline
    ensures TrimRight(s[i..]) == s[i..j]
  {
    var l := s[i..];
    assert l[..j - i] == s[i..j];
    forall k | j - i <= k < |l| ensures l[k] == Newline {
      assert l[k] == s[k + i];
    }
    TrimRightUnique(l, j - i);
  }

  lemma {:induction false} TrimLeftUnique(s: seq<byte>, i: nat)
    requires i <= |s|
    requires forall k :: 0 <= k < i ==> s[k] == Newline
    requires i == |s| || s[i] != Newline
    ensures TrimLeft(s) == s[i..]
    decreases i
  {
    if i > 0 {
      TrimLeftUnique(s[1..], i - 1);
      assert s[1..][i - 1..] == s[i..];
    }
  }

  lemma {:induction false} TrimRightUnique(s: seq<byte>, j: nat)
    requires 0 < j <= |s|
    requires forall k :: j <= k < |s| ==> s[k] == Newline
    requires s[j - 1] != Newline
    ensures TrimRight(s) == s[..j]
    decreases |s|
  {
    if j < |s| {
      TrimRightUnique(s[..|s| - 1], j);
      assert s[..|s| - 1][..j] == s[..j];
    }
  }

  /** Trimming twice trims nothing more. */
  lemma TrimNewlinesIdempotent(s: seq<byte>)
    ensures TrimNewlines(TrimNewlines(s)) == TrimNewlines(s)
  {
    var t := TrimNewlines(s);
    var i, j := TrimNewlinesShape(s);
    if t != [] {
      assert t[0] == s[i] && t[|t| - 1] == s[j - 1];
      TrimNewlinesUnique(t, 0, |t|);
      assert t[0..|t|] == t;
    }
  }

  /** A `/metrics` request logs the placeholder; any other logs its trimmed, cut body. */
  lemma LoggedBody(uri: string, body: seq<byte>)
    ensures IsMetrics(uri) ==> RequestEndBody(uri, LogBody(body)) == Placeholder
    ensures !IsMetrics(uri) ==> RequestEndBody(uri, LogBody(body)) == TrimNewlines(body)[..|LogBody(body)|]
    ensures |RequestEndBody(uri, LogBody(body))| <= MaxPrintBodyLen
  {
  }
}
