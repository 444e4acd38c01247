/**
 * The framing done by the JavaScript client's `sendCommand`: what it writes
 * for a command, and when it considers the reply complete.
 */
module JsTransport {
  import opened Wrappers

  datatype TransportError =
    | SocketNotWritable  // no socket, or it is not writable or destroyed
    | CommandTimeout     // no complete reply before the timer fired

  /** The reply terminator: a reply is complete when the received text ends with it. */
  const Terminator: char := '!'

  /**
   * The text `sendCommand` writes, `${command}${authorizationCode}^!`: the
   * command and the authorization code, closed by a '^' and the terminator.
   * When the command and the code hold no `!`, the terminator is the last
   * character and appears nowhere before it.
   */
  function FullCommand(command: string, authorization: string): (r: string)
    ensures |r| >= 2 && r[..|r| - 2] == command + authorization
    ensures EndsWithTerminator(r) && r[|r| - 2] == '^'
    ensures Terminator !in command + authorization
            ==> forall k :: 0 <= k < |r| - 1 ==> r[k] != Terminator
  {
    command + authorization + "^!"
  }

  predicate EndsWithTerminator(s: string)
  {
    |s| > 0 && s[|s| - 1] == Terminator
  }

  /** The text of the first `k` chunks received, in order. */
  function Concat(chunks: seq<string>): string
  {
    if |chunks| == 0 then "" else Concat(chunks[..|chunks| - 1]) + chunks[|chunks| - 1]
  }

  /**
   * The `data` handler: append each chunk to what was received so far and
   * resolve with the whole text as soon as it ends with `!`. `Some((text, k))`
   * is the reply resolved after `k` chunks; `None` is the timeout firing
   * because no prefix of the chunks ever ended with `!`.
   */
  method Receive(chunks: seq<string>) returns (r: Option<(string, nat)>)
    ensures r.Some? ==> (1 <= r.value.1 <= |chunks|
                         && r.value.0 == Concat(chunks[..r.value.1])
                         && EndsWithTerminator(r.value.0)
                         && forall k :: 1 <= k < r.value.1 ==> !EndsWithTerminator(Concat(chunks[..k])))
    ensures r.None? <==> forall k :: 1 <= k <= |chunks| ==> !EndsWithTerminator(Concat(chunks[..k]))
  {
    var received := "";
    for i := 0 to |chunks|
      invariant received == Concat(chunks[..i])
      invariant forall k :: 1 <= k <= i ==> !EndsWithTerminator(Concat(chunks[..k]))
    {
      assert chunks[..i + 1][..i] == chunks[..i];
      received := received + chunks[i];
      if EndsWithTerminator(received) {
        return Some((received, i + 1));
      }
    }
    r := None;
  }

  /**
   * `sendCommand`: refuse when the socket is not writable; otherwise write the
   * framed command and wait for a complete reply among the chunks the socket
   * delivers before the timer fires. The result is the written text and the reply.
   */
  method SendCommand(writable: bool, command: string, authorization: string, chunks: seq<string>)
    returns (r: Result<(string, string), TransportError>)
    ensures !writable ==> r == Err(SocketNotWritable)
    ensures writable ==> r.Ok? || r == Err(CommandTimeout)
    ensures writable && r.Ok? ==> (r.value.0 == FullCommand(command, authorization)
                                   && EndsWithTerminator(r.value.1)
                                   && exists k :: 1 <= k <= |chunks| && r.value.1 == Concat(chunks[..k])
                                        && forall j :: 1 <= j < k ==> !EndsWithTerminator(Concat(chunks[..j])))
    ensures writable ==> (r == Err(CommandTimeout)
                          <==> forall k :: 1 <= k <= |chunks| ==> !EndsWithTerminator(Concat(chunks[..k])))
  {
    if !writable {
      return Err(SocketNotWritable);
    }
    var wrote := FullCommand(command, authorization);
    var reply := Receive(chunks);
    match reply
    case Some(got) => r := Ok((wrote, got.0));
    case None => r := Err(CommandTimeout);
  }

  lemma {:induction false} ConcatPrefix(chunks: seq<string>, k: nat)
    requires k <= |chunks|
    ensures |Concat(chunks[..k])| <= |Concat(chunks)|
    ensures Concat(chunks[..k]) == Concat(chunks)[..|Concat(chunks[..k])|]
  {
    if k < |chunks| {
      var front := chunks[..|chunks| - 1];
      assert front[..k] == chunks[..k];
      ConcatPrefix(front, k);
    } else {
      assert chunks[..k] == chunks;
    }
  }

  /**
   * However a reply with a single `!`, at its end, is cut into chunks, the
   * client resolves with the whole reply once its last chunk arrives and never
   * before: `Receive` returns `Some((reply, |chunks|))` for such chunks.
   */
  lemma WholeReplyReceived(chunks: seq<string>)
    requires |chunks| >= 1 && chunks[|chunks| - 1] != ""
    requires EndsWithTerminator(Concat(chunks))
    requires Terminator !in Concat(chunks)[..|Concat(chunks)| - 1]
    ensures EndsWithTerminator(Concat(chunks[..|chunks|]))
    ensures forall k :: 1 <= k < |chunks| ==> !EndsWithTerminator(Concat(chunks[..k]))
  {
    var whole := Concat(chunks);
    assert chunks[..|chunks|] == chunks;
    forall k | 1 <= k < |chunks|
      ensures !EndsWithTerminator(Concat(chunks[..k]))
    {
      var part := Concat(chunks[..k]);
      ConcatPrefix(chunks, k);
      ConcatPrefix(chunks, |chunks| - 1);
      assert chunks[..k] == chunks[..|chunks| - 1][..k];
      ConcatPrefix(chunks[..|chunks| - 1], k);
      var front := Concat(chunks[..|chunks| - 1]);
      assert whole == front + chunks[|chunks| - 1];
      assert |part| <= |front| < |whole|;
      if |part| > 0 {
        assert part[|part| - 1] == whole[..|whole| - 1][|part| - 1];
      }
    }
  }
}
