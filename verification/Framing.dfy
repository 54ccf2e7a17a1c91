/** The length-prefixed messages of exercise 26 over a stream of bytes that arrive in pieces. */
module Framing {

  type Byte = b: int | 0 <= b < 256

  ghost predicate NulFree(s: seq<Byte>) { forall i :: 0 <= i < |s| ==> s[i] != 0 }

  /** The C string at the start of a buffer: what is before the first NUL. */
  function CString(s: seq<Byte>): seq<Byte> {
    if s == [] || s[0] == 0 then [] else [s[0]] + CString(s[1..])
  }

  lemma {:induction false} CStringIs(s: seq<Byte>, n: nat)
    requires n < |s| && NulFree(s[..n]) && s[n] == 0
    ensures CString(s) == s[..n]
  {
    if n > 0 {
      assert s[0] == s[..n][0];
      assert s[1..][..n - 1] == s[..n][1..];
      CStringIs(s[1..], n - 1);
      assert s[..n] == [s[0]] + s[..n][1..];
    }
  }

  lemma {:induction false} CStringNulFree(s: seq<Byte>)
    ensures NulFree(CString(s))
  {
    if s != [] && s[0] != 0 {
      CStringNulFree(s[1..]);
    }
  }

  // ---------- what is sent and what is received ----------

  /** The bytes `send_msg` sends: the length as a byte, and as much of the message. */
  function Frame(msg: seq<Byte>): seq<Byte> {
    var len := |msg| % 256;
    [len] + msg[..len]
  }

  function Stream(msgs: seq<seq<Byte>>): seq<Byte> {
    if msgs == [] then [] else Frame(msgs[0]) + Stream(msgs[1..])
  }

  datatype Reception = Reception(result: int, payload: seq<Byte>, rest: seq<Byte>)

  /** What `recv_msg` takes from a stream that ends after `stream`, for a buffer of `bufsz` bytes. */
  function Receive(stream: seq<Byte>, bufsz: nat): Reception
    requires bufsz > 0
  {
    if stream == [] then Reception(-1, [], [])
    else
      var len := if stream[0] >= bufsz then bufsz - 1 else stream[0];
      var n := if len <= |stream| - 1 then len else |stream| - 1;
      Reception(n, stream[1..n + 1], stream[n + 1..])
  }

  predicate Fits(msg: seq<Byte>, bufsz: nat) { |msg| < 256 && |msg| < bufsz }

  /** One message comes back whole, with the stream at the next frame, exactly if it is shorter
      than 256 bytes and than the buffer. */
  lemma MessageRoundTrip(msg: seq<Byte>, rest: seq<Byte>, bufsz: nat)
    requires bufsz > 0
    ensures Receive(Frame(msg) + rest, bufsz) == Reception(|msg|, msg, rest) <==> Fits(msg, bufsz)
  {
    var stream, len := Frame(msg) + rest, |msg| % 256;
    assert stream[0] == len;
    if Fits(msg, bufsz) {
      assert len == |msg| && msg[..len] == msg;
      assert stream == [len] + (msg + rest);
      assert stream[1..len + 1] == msg && stream[len + 1..] == rest;
    }
  }

  /** What one call of `recv_msg` hands to its caller. */
  datatype Delivery = Delivery(result: int, payload: seq<Byte>)

  function Delivered(msgs: seq<seq<Byte>>): seq<Delivery> {
    if msgs == [] then [] else [Delivery(|msgs[0]|, msgs[0])] + Delivered(msgs[1..])
  }

  /** `k` calls of `recv_msg` in a row, and the remaining stream. */
  function ReceiveMany(stream: seq<Byte>, bufsz: nat, k: nat): (seq<Delivery>, seq<Byte>)
    requires bufsz > 0
    decreases k
  {
    if k == 0 then ([], stream)
    else
      var first := Receive(stream, bufsz);
      var others := ReceiveMany(first.rest, bufsz, k - 1);
      ([Delivery(first.result, first.payload)] + others.0, others.1)
  }

  predicate AllFit(msgs: seq<seq<Byte>>, bufsz: nat) {
    forall i :: 0 <= i < |msgs| ==> Fits(msgs[i], bufsz)
  }

  lemma SplitFirst(msgs: seq<seq<Byte>>, first: Delivery, others: seq<Delivery>, bufsz: nat)
    requires msgs != []
    ensures [first] + others == Delivered(msgs) <==>
            first == Delivery(|msgs[0]|, msgs[0]) && others == Delivered(msgs[1..])
    ensures AllFit(msgs, bufsz) <==> Fits(msgs[0], bufsz) && AllFit(msgs[1..], bufsz)
  {
    if [first] + others == Delivered(msgs) {
      assert Delivered(msgs)[1..] == others;
    }
    if Fits(msgs[0], bufsz) && AllFit(msgs[1..], bufsz) {
      forall i | 0 <= i < |msgs|
        ensures Fits(msgs[i], bufsz)
      {
        assert i > 0 ==> msgs[i] == msgs[1..][i - 1];
      }
    }
  }

  /** A message that does not fit comes back shorter, as a prefix of itself. */
  lemma PayloadDecides(msg: seq<Byte>, rest: seq<Byte>, bufsz: nat)
    requires bufsz > 0 && !Fits(msg, bufsz)
    ensures var r := Receive(Frame(msg) + rest, bufsz);
      0 <= r.result == |r.payload| < |msg| && r.payload == msg[..r.result]
  {
    var stream := Frame(msg) + rest;
    assert stream[0] == |msg| % 256;
    assert stream == [stream[0]] + (msg[..|msg| % 256] + rest);
  }

  /** A list of messages comes back in order, with the stream at a frame boundary, exactly if all
      of them fit. */
  lemma {:induction false} ConversationRoundTrip(msgs: seq<seq<Byte>>, rest: seq<Byte>, bufsz: nat)
    requires bufsz > 0
    ensures ReceiveMany(Stream(msgs) + rest, bufsz, |msgs|) == (Delivered(msgs), rest) <==> AllFit(msgs, bufsz)
    decreases |msgs|
  {
    if msgs == [] {
      assert Stream(msgs) + rest == rest;
    } else {
      var tail := Stream(msgs[1..]) + rest;
      var first := Receive(Frame(msgs[0]) + tail, bufsz);
      assert Stream(msgs) + rest == Frame(msgs[0]) + tail;
      SplitFirst(msgs, Delivery(first.result, first.payload), ReceiveMany(first.rest, bufsz, |msgs| - 1).0, bufsz);
      if Fits(msgs[0], bufsz) {
        MessageRoundTrip(msgs[0], tail, bufsz);
        ConversationRoundTrip(msgs[1..], rest, bufsz);
      } else {
        PayloadDecides(msgs[0], tail, bufsz);
      }
    }
  }

  // ---------- the procedures ----------

  /** Copy what `recv` delivered to where it belongs. */
  method Store(buf: array<Byte>, at: nat, chunk: seq<Byte>, ghost all: seq<Byte>)
    requires at + |chunk| <= buf.Length && at + |chunk| <= |all|
    requires buf[..at] == all[..at] && all[at..at + |chunk|] == chunk
    modifies buf
    ensures buf[..at + |chunk|] == all[..at + |chunk|]
    ensures forall j :: at + |chunk| <= j < buf.Length ==> buf[j] == old(buf[j])
  {
    for i := 0 to |chunk|
      invariant forall j :: 0 <= j < at ==> buf[j] == all[j]
      invariant forall j :: at <= j < at + i ==> buf[j] == chunk[j - at]
      invariant forall j :: at + i <= j < buf.Length ==> buf[j] == old(buf[j])
    {
      buf[at + i] := chunk[i];
    }
    forall j | 0 <= j < at + |chunk|
      ensures buf[j] == all[j]
    {
      if j >= at {
        assert all[at..at + |chunk|][j - at] == all[j];
      }
    }
  }

  /** The bytes that `send_msg` adds to the stream: the length modulo 256, and as many bytes of the
      message as that says. */
  ghost predicate Sent(before: seq<Byte>, msg: seq<Byte>, after: seq<Byte>) {
    var at, len := |before|, |msg| % 256;
    && |after| == at + 1 + len && after[..at] == before
    && after[at] == len && after[at + 1..] == msg[..len]
  }

  lemma SentFrame(before: seq<Byte>, msg: seq<Byte>, after: seq<Byte>)
    requires Sent(before, msg, after)
    ensures after == before + Frame(msg)
  {
    var at, len := |before|, |msg| % 256;
    assert after == after[..at] + [after[at]] + after[at + 1..];
    assert before + [len] + msg[..len] == before + ([len] + msg[..len]);
  }

  /** What `recv_msg` does to a stream: nothing at its end; else the first byte is the length,
      clipped to the buffer, and that many bytes follow, or all there are. */
  ghost predicate Took(stream: seq<Byte>, bufsz: nat, result: int, payload: seq<Byte>, rest: seq<Byte>) {
    if stream == [] then result == -1 && payload == [] && rest == []
    else
      var l, there := stream[0], |stream| - 1;
      && (l < bufsz && l <= there ==> result == l)
      && (l >= bufsz && bufsz - 1 <= there ==> result == bufsz - 1)
      && (l > there && bufsz - 1 > there ==> result == there)
      && 0 <= result <= there && payload == stream[1..result + 1] && rest == stream[result + 1..]
  }

  lemma TookReception(stream: seq<Byte>, bufsz: nat, result: int, payload: seq<Byte>, rest: seq<Byte>)
    requires bufsz > 0 && Took(stream, bufsz, result, payload, rest)
    ensures Receive(stream, bufsz) == Reception(result, payload, rest)
  {
  }

  /** A connected socket: the bytes sent and not yet received. */
  class Socket {
    var stream: seq<Byte>

    /** `send` */
    method Send(bytes: seq<Byte>)
      modifies this
      ensures stream == old(stream) + bytes
    {
      stream := stream + bytes;
    }

    /** `recv`: some of the bytes that are there, at least one and at most `want`, as the network
        has cut them; none at the end of the stream. */
    method Recv(want: nat) returns (chunk: seq<Byte>)
      requires want > 0
      modifies this
      ensures |chunk| <= want && old(stream) == chunk + stream
      ensures chunk == [] <==> old(stream) == []
    {
      if stream == [] {
        return [];
      }
      var r: nat :| 1 <= r <= want && r <= |stream|;
      chunk := stream[..r];
      stream := stream[r..];
    }

    /** `recv_all`: however the bytes arrive, the first `n` of them, or all there are. */
    method RecvAll(buf: array<Byte>, n: nat) returns (total: nat)
      requires n <= buf.Length
      modifies this, buf
      ensures total == if n <= |old(stream)| then n else |old(stream)|
      ensures buf[..total] == old(stream[..total]) && stream == old(stream[total..])
      ensures buf[total..] == old(buf[total..])
    {
      ghost var all := stream;
      total := 0;
      while total < n
        invariant total <= n && total <= |all| && stream == all[total..]
        invariant buf[..total] == all[..total]
        invariant forall j :: total <= j < buf.Length ==> buf[j] == old(buf[j])
      {
        var chunk := Recv(n - total);
        if chunk == [] {
          return;
        }
        Store(buf, total, chunk, all);
        total := total + |chunk|;
      }
    }

    /** `send_msg`, for a string without its terminating NUL. */
    method SendMsg(msg: seq<Byte>)
      modifies this
      ensures Sent(old(stream), msg, stream)
    {
      var len := |msg| % 256;
      Send([len]);
      Send(msg[..len]);
    }

    /** `recv_msg`: the result, the payload as a C string in the buffer, and the rest of the
        stream. */
    method RecvMsg(buf: array<Byte>) returns (result: int)
      requires buf.Length > 0
      modifies this, buf
      ensures -1 <= result < buf.Length
      ensures Took(old(stream), buf.Length, result, if result < 0 then [] else buf[..result], stream)
      ensures result < 0 ==> buf[..] == old(buf[..])
      ensures result >= 0 ==> buf[result] == 0 && buf[result + 1..] == old(buf[result + 1..])
      ensures result >= 0 && NulFree(buf[..result]) ==> CString(buf[..]) == buf[..result]
    {
      ghost var all := stream;
      var lenBuf := new Byte[1];
      var got := RecvAll(lenBuf, 1);
      if got != 1 {
        return -1;
      }
      var len := lenBuf[0];
      assert lenBuf[..1][0] == all[0];
      if len >= buf.Length {
        len := buf.Length - 1;
      }
      var n := RecvAll(buf, len);
      ghost var tail := buf[n..];
      assert tail == old(buf[..])[n..];
      buf[n] := 0;
      assert buf[n + 1..] == tail[1..] == old(buf[..])[n + 1..];
      assert all[1..][..n] == all[1..n + 1] && all[1..][n..] == all[n + 1..];
      if NulFree(buf[..n]) {
        assert buf[..][..n] == buf[..n];
        CStringIs(buf[..], n);
      }
      return n;
    }
  }

  lemma {:induction false} StreamAppend(msgs: seq<seq<Byte>>, i: nat)
    requires i < |msgs|
    ensures Stream(msgs[..i + 1]) == Stream(msgs[..i]) + Frame(msgs[i])
  {
    assert msgs[..i + 1][0] == msgs[0];
    if i > 0 {
      assert msgs[..i + 1][1..] == msgs[1..][..i] && msgs[..i][1..] == msgs[1..][..i - 1];
      StreamAppend(msgs[1..], i - 1);
    } else {
      assert msgs[..1][1..] == [] && msgs[..0] == [];
    }
  }

  /** A list of messages sent one after the other. */
  method SendAll(s: Socket, msgs: seq<seq<Byte>>)
    modifies s
    ensures s.stream == old(s.stream) + Stream(msgs)
  {
    ghost var before := s.stream;
    for i := 0 to |msgs|
      invariant s.stream == before + Stream(msgs[..i])
    {
      StreamAppend(msgs, i);
      ghost var was := s.stream;
      s.SendMsg(msgs[i]);
      SentFrame(was, msgs[i], s.stream);
      assert before + Stream(msgs[..i]) + Frame(msgs[i]) == before + (Stream(msgs[..i]) + Frame(msgs[i]));
    }
    assert msgs[..|msgs|] == msgs;
  }

  /** `left` more calls on `stream` complete `got` to what the calls on the stream `all` give. */
  ghost predicate Continues(all: seq<Byte>, bufsz: nat, k: nat, got: seq<Delivery>, stream: seq<Byte>, left: nat)
    requires bufsz > 0
  {
    var others := ReceiveMany(stream, bufsz, left);
    ReceiveMany(all, bufsz, k) == (got + others.0, others.1)
  }

  lemma NothingReceived(all: seq<Byte>, bufsz: nat, k: nat)
    requires bufsz > 0
    ensures Continues(all, bufsz, k, [], all, k)
  {
    var r := ReceiveMany(all, bufsz, k);
    assert [] + r.0 == r.0;
  }

  lemma ReceivedNext(all: seq<Byte>, bufsz: nat, k: nat, got: seq<Delivery>, stream: seq<Byte>, left: nat)
    requires bufsz > 0 && left > 0 && Continues(all, bufsz, k, got, stream, left)
    ensures var r := Receive(stream, bufsz);
      Continues(all, bufsz, k, got + [Delivery(r.result, r.payload)], r.rest, left - 1)
  {
    var r := Receive(stream, bufsz);
    var others := ReceiveMany(r.rest, bufsz, left - 1);
    var d := Delivery(r.result, r.payload);
    assert got + ([d] + others.0) == (got + [d]) + others.0;
  }

  /** After each call, the C string in the buffer is the payload, if that has no NUL. */
  ghost predicate Printed(texts: seq<seq<Byte>>, got: seq<Delivery>) {
    |texts| == |got|
    && forall i :: 0 <= i < |got| && got[i].result >= 0 && NulFree(got[i].payload) ==> texts[i] == got[i].payload
  }

  lemma PrintedNext(texts: seq<seq<Byte>>, got: seq<Delivery>, text: seq<Byte>, d: Delivery)
    requires Printed(texts, got) && (d.result >= 0 && NulFree(d.payload) ==> text == d.payload)
    ensures Printed(texts + [text], got + [d])
  {
  }

  /** `k` messages received into one buffer: what each call returned and put there, and the C
      string in the buffer after it. */
  method ReceiveAll(s: Socket, buf: array<Byte>, k: nat) returns (got: seq<Delivery>, texts: seq<seq<Byte>>)
    requires buf.Length > 0
    modifies s, buf
    ensures (got, s.stream) == ReceiveMany(old(s.stream), buf.Length, k)
    ensures Printed(texts, got)
  {
    got, texts := [], [];
    ghost var all := s.stream;
    NothingReceived(all, buf.Length, k);
    for i := 0 to k
      invariant Continues(all, buf.Length, k, got, s.stream, k - i)
      invariant Printed(texts, got)
    {
      ghost var was := s.stream;
      ReceivedNext(all, buf.Length, k, got, was, k - i);
      var n := s.RecvMsg(buf);
      var d, text := Delivery(n, if n < 0 then [] else buf[..n]), CString(buf[..]);
      TookReception(was, buf.Length, n, d.payload, s.stream);
      PrintedNext(texts, got, text, d);
      got, texts := got + [d], texts + [text];
    }
    assert got + [] == got;
  }

  lemma {:induction false} DeliveredAt(msgs: seq<seq<Byte>>, i: nat)
    requires i < |msgs|
    ensures |Delivered(msgs)| == |msgs| && Delivered(msgs)[i] == Delivery(|msgs[i]|, msgs[i])
  {
    if i > 0 {
      DeliveredAt(msgs[1..], i - 1);
    } else if |msgs| > 1 {
      DeliveredAt(msgs[1..], 0);
    }
  }

  ghost predicate CStrings(msgs: seq<seq<Byte>>) {
    forall i :: 0 <= i < |msgs| ==> NulFree(msgs[i])
  }

  lemma PrintedMessages(msgs: seq<seq<Byte>>, texts: seq<seq<Byte>>)
    requires CStrings(msgs) && Printed(texts, Delivered(msgs))
    ensures texts == msgs
  {
    if msgs != [] {
      DeliveredAt(msgs, 0);
    }
    forall i | 0 <= i < |msgs|
      ensures texts[i] == msgs[i]
    {
      DeliveredAt(msgs, i);
    }
  }

  /** Whatever was sent arrives, however the network cuts it, exactly if every message fits; then
      the buffer also reads as the message after each call. */
  method Exchange(msgs: seq<seq<Byte>>, buf: array<Byte>)
    returns (got: seq<Delivery>, texts: seq<seq<Byte>>, left: seq<Byte>)
    requires buf.Length > 0 && CStrings(msgs)
    modifies buf
    ensures got == Delivered(msgs) && left == [] <==> AllFit(msgs, buf.Length)
    ensures AllFit(msgs, buf.Length) ==> texts == msgs
  {
    var s := new Socket;
    s.stream := [];
    SendAll(s, msgs);
    assert [] + Stream(msgs) == Stream(msgs) + [];
    ConversationRoundTrip(msgs, [], buf.Length);
    got, texts := ReceiveAll(s, buf, |msgs|);
    left := s.stream;
    if AllFit(msgs, buf.Length) {
      PrintedMessages(msgs, texts);
    }
  }

  // ---------- the demo ----------

  const BUF_SIZE: nat := 64
  const ECHO_SIZE: nat := 80

  /** `snprintf(echo, sizeof echo, "[echo] %s", text)`, in bytes. */
  function Echo(text: seq<Byte>): (echo: seq<Byte>)
    ensures |echo| == if |text| + 7 < ECHO_SIZE then |text| + 7 else ECHO_SIZE - 1
    ensures |text| + 7 < ECHO_SIZE ==>
      echo[7..] == text && forall i :: 0 <= i < 7 ==> echo[i] == "[echo] "[i] as int
    ensures NulFree(text) ==> NulFree(echo)
  {
    var whole: seq<Byte> := [91, 101, 99, 104, 111, 93, 32] + text;
    if |whole| < ECHO_SIZE then whole else whole[..ECHO_SIZE - 1]
  }

  lemma FrameReceived(msg: seq<Byte>, bufsz: nat)
    requires bufsz > 0 && NulFree(msg)
    ensures var r := Receive([] + Frame(msg), bufsz);
      && r.result >= 0 && NulFree(r.payload)
      && (r.payload == msg <==> Fits(msg, bufsz)) && (Fits(msg, bufsz) ==> r.rest == [])
  {
    assert [] + Frame(msg) == Frame(msg) + [];
    MessageRoundTrip(msg, [], bufsz);
    if !Fits(msg, bufsz) {
      PayloadDecides(msg, [], bufsz);
    }
  }

  /** One message from one side to the other.  On a drained stream the text printed is the message
      exactly if it fits the buffer, and then the stream is drained again. */
  method Pass(s: Socket, msg: seq<Byte>, buf: array<Byte>) returns (text: seq<Byte>)
    requires buf.Length > 0 && NulFree(msg)
    modifies s, buf
    ensures NulFree(text)
    ensures old(s.stream) == [] ==> (text == msg <==> Fits(msg, buf.Length))
    ensures old(s.stream) == [] && Fits(msg, buf.Length) ==> s.stream == []
  {
    ghost var was := s.stream;
    s.SendMsg(msg);
    ghost var sent := s.stream;
    SentFrame(was, msg, sent);
    FrameReceived(msg, buf.Length);
    var n := s.RecvMsg(buf);
    TookReception(sent, buf.Length, n, if n < 0 then [] else buf[..n], s.stream);
    text := CString(buf[..]);
    CStringNulFree(buf[..]);
  }

  /** The answer to this message fits the client's buffer. */
  predicate Answerable(msg: seq<Byte>) { |msg| < 57 }

  ghost predicate AllAnswered(msgs: seq<seq<Byte>>, heard: seq<seq<Byte>>, answers: seq<seq<Byte>>, n: nat) {
    && n <= |msgs| && n <= |heard| && n <= |answers|
    && forall i :: 0 <= i < n ==> heard[i] == msgs[i] && answers[i] == Echo(msgs[i])
  }

  ghost predicate AllAnswerable(msgs: seq<seq<Byte>>, n: nat) {
    n <= |msgs| && forall i :: 0 <= i < n ==> Answerable(msgs[i])
  }

  /** Message and answer both arrive exactly if the message is shorter than 57 bytes. */
  lemma OneAnswer(msg: seq<Byte>, text: seq<Byte>, answer: seq<Byte>)
    requires text == msg <==> Fits(msg, BUF_SIZE)
    requires answer == Echo(text) <==> Fits(Echo(text), BUF_SIZE)
    ensures text == msg && answer == Echo(msg) <==> Answerable(msg)
  {
  }

  lemma Answer(msgs: seq<seq<Byte>>, heard: seq<seq<Byte>>, answers: seq<seq<Byte>>, i: nat, text: seq<Byte>, answer: seq<Byte>)
    requires i < |msgs| && |heard| == |answers| == i
    requires AllAnswered(msgs, heard, answers, i) <==> AllAnswerable(msgs, i)
    requires AllAnswerable(msgs, i) ==> (text == msgs[i] && answer == Echo(msgs[i]) <==> Answerable(msgs[i]))
    ensures AllAnswered(msgs, heard + [text], answers + [answer], i + 1) <==> AllAnswerable(msgs, i + 1)
  {
    var heard', answers' := heard + [text], answers + [answer];
    assert forall j :: 0 <= j < i ==> heard[j] == heard'[j] && answers[j] == answers'[j];
    assert text == heard'[i] && answer == answers'[i];
    if AllAnswered(msgs, heard', answers', i + 1) {
      assert AllAnswered(msgs, heard, answers, i);
    }
    if AllAnswerable(msgs, i + 1) {
      assert AllAnswerable(msgs, i);
    }
  }

  /** The demo over TCP: the client sends each message and waits for the answer, the server echoes
      what it heard.  The server prints every message and the client every echo of it exactly if
      all messages are shorter than 57 bytes. */
  method Dialogue(msgs: seq<seq<Byte>>) returns (heard: seq<seq<Byte>>, answers: seq<seq<Byte>>)
    requires CStrings(msgs)
    ensures |heard| == |answers| == |msgs|
    ensures AllAnswered(msgs, heard, answers, |msgs|) <==> AllAnswerable(msgs, |msgs|)
  {
    var up, down := new Socket, new Socket;
    up.stream, down.stream := [], [];
    var serverBuf := new Byte[BUF_SIZE](_ => 0);
    var clientBuf := new Byte[BUF_SIZE](_ => 0);
    heard, answers := [], [];
    for i := 0 to |msgs|
      invariant |heard| == |answers| == i
      invariant AllAnswered(msgs, heard, answers, i) <==> AllAnswerable(msgs, i)
      invariant AllAnswerable(msgs, i) ==> up.stream == [] && down.stream == []
    {
      ghost var h, a := heard, answers;
      var text := Pass(up, msgs[i], serverBuf);
      var answer := Pass(down, Echo(text), clientBuf);
      heard, answers := heard + [text], answers + [answer];
      if AllAnswerable(msgs, i) {
        OneAnswer(msgs[i], text, answer);
      }
      Answer(msgs, h, a, i, text, answer);
    }
  }
}
