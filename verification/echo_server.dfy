/**
 * The request handling of the socket echo server (demo_server.c:66-88): each
 * read of up to 4096 bytes is NUL-terminated in the fixed buffer, its bytes
 * are upper-cased, and the C string left in the buffer is written back.
 * Sockets are modelled by the sequence of read outcomes they deliver.
 */
module EchoServer {
  import opened CStr

  /** SHELL_USERINPUT_MAX: the size of `uinput` and of every read. */
  const MAX: nat := 4096

  /** A byte, as the characters 0 to 255. */
  type Byte = c: char | c as int < 256 witness '\0'

  predicate IsLower(c: char) { 'a' <= c <= 'z' }

  /** toupper in the C locale (the server never calls setlocale). */
  function ToUpper(c: Byte): (u: Byte)
    ensures !IsLower(u)
    ensures u == c <==> !IsLower(c)
    ensures IsLower(c) ==> 'A' <= u <= 'Z' && u as int - 'A' as int == c as int - 'a' as int
  {
    if IsLower(c) then (c as int - 32) as char else c
  }

  /** Upper-casing twice is upper-casing once. */
  lemma {:induction false} ToUpperIdempotent(c: Byte)
    ensures ToUpper(ToUpper(c)) == ToUpper(c)
  {
  }

  /** Lines 68-71: where the terminating NUL is stored for a read of r > 0 bytes. */
  function TerminatorIndex(r: int): (k: nat)
    requires 0 < r
    ensures k < MAX
    ensures k <= r
    ensures k == r <==> r < MAX
    ensures r >= MAX ==> k == MAX - 1
  {
    if r >= MAX then MAX - 1 else r
  }

  /** Every byte upper-cased. */
  function UpperAll(s: seq<Byte>): (u: seq<Byte>)
    ensures |u| == |s|
    ensures forall i :: 0 <= i < |s| ==> u[i] == ToUpper(s[i])
  {
    seq(|s|, i requires 0 <= i < |s| => ToUpper(s[i]))
  }

  /** Line 78: the first r bytes upper-cased, the rest of the buffer untouched. */
  function UpperPrefix(buf: seq<Byte>, r: nat): (u: seq<Byte>)
    requires r <= |buf|
    ensures |u| == |buf|
    ensures forall i :: 0 <= i < r ==> u[i] == ToUpper(buf[i])
    ensures forall i :: r <= i < |buf| ==> u[i] == buf[i]
  {
    var u := UpperAll(buf[..r]) + buf[r..];
    assert forall i :: r <= i < |buf| ==> u[i] == buf[r..][i - r];
    u
  }

  /**
   * The reply the server promises for a request of bytes `data`: the request
   * as a C string (up to its first NUL), at most 4095 bytes of it, upper-cased.
   */
  function Respond(data: seq<Byte>): (reply: seq<Byte>)
    ensures |reply| <= |data| && |reply| < MAX
    ensures NUL !in reply
    ensures forall i :: 0 <= i < |reply| ==> reply[i] == ToUpper(data[i])
    ensures |reply| < |data| && |reply| < MAX - 1 ==> data[|reply|] == NUL
  {
    var visible := UntilNul(data[..if |data| < MAX then |data| else MAX - 1]);
    assert forall i :: 0 <= i < |visible| ==> visible[i] == data[i];
    assert forall i :: 0 <= i < |visible| ==> visible[i] as int < 256;
    UpperAll(visible)
  }

  /**
   * The reply is the whole request exactly when the read was shorter than the
   * buffer and held no NUL; a full 4096-byte read always loses its last byte.
   */
  lemma {:induction false} ReplyLength(data: seq<Byte>)
    requires 0 < |data| <= MAX
    ensures |Respond(data)| <= if |data| < MAX then |data| else MAX - 1
    ensures |Respond(data)| == |data| <==> |data| < MAX && NUL !in data
  {
    var reply := Respond(data);
    if |reply| == |data| {
      assert forall i :: 0 <= i < |data| ==> data[i] != NUL by {
        forall i | 0 <= i < |data|
          ensures data[i] != NUL
        {
          assert ToUpper(data[i]) == reply[i];
          assert reply[i] in reply;
        }
      }
    }
  }

  /** The buffer and the reply after one request (one pass of the loop at line 66). */
  datatype Handled = Handled(buffer: seq<Byte>, reply: seq<Byte>)

  /**
   * One request: read stores the bytes at the front of the buffer, a NUL is
   * placed (lines 68-71), the first r bytes are upper-cased (line 78) and the
   * buffer's C string is the reply (line 82). The reply is Respond(data),
   * whatever earlier requests left in the buffer; bytes past the request are
   * left as they were.
   */
  function Handle(buf: seq<Byte>, data: seq<Byte>): (h: Handled)
    requires |buf| == MAX && 0 < |data| <= MAX
    ensures |h.buffer| == MAX
    ensures h.reply == Respond(data)
    ensures h.buffer[TerminatorIndex(|data|)] == NUL
    ensures forall i :: 0 <= i < |data| && i != TerminatorIndex(|data|) ==> h.buffer[i] == ToUpper(data[i])
    ensures forall i :: |data| < i < MAX ==> h.buffer[i] == buf[i]
  {
    var r := |data|;
    var k := TerminatorIndex(r);
    var received := data + buf[r..];
    var terminated := received[k := NUL];
    var upper := UpperPrefix(terminated, r);
    ReplyOfBuffer(upper, data, k);
    Handled(upper, UntilNul(upper))
  }

  /**
   * A buffer whose first k bytes are the upper-cased request and whose byte k
   * is NUL holds Respond(data) as its C string.
   */
  lemma {:induction false} ReplyOfBuffer(upper: seq<Byte>, data: seq<Byte>, k: nat)
    requires 0 < |data| <= MAX && k == TerminatorIndex(|data|)
    requires k < |upper| && upper[k] == NUL
    requires forall i :: 0 <= i < k ==> upper[i] == ToUpper(data[i])
    ensures UntilNul(upper) == Respond(data)
  {
    UntilNulCut(upper, k);
    var front := data[..k];
    assert upper[..k] == UpperAll(front);
    UpperUntilNul(front);
  }

  /** Upper-casing and cutting at the first NUL commute: toupper keeps NUL and non-NUL apart. */
  lemma {:induction false} UpperUntilNul(s: seq<Byte>)
    ensures UntilNul(UpperAll(s)) == UpperAll(UntilNul(s))
    decreases |s|
  {
    if |s| > 0 && s[0] != NUL {
      assert UpperAll(s)[1..] == UpperAll(s[1..]);
      UpperUntilNul(s[1..]);
      assert UntilNul(s) == [s[0]] + UntilNul(s[1..]);
      assert UpperAll(UntilNul(s)) == [ToUpper(s[0])] + UpperAll(UntilNul(s[1..]));
    }
  }

  /**
   * Line 78 as the loop it is, on the buffer: afterwards the first r bytes are
   * upper-cased and every byte from r on is unchanged.
   */
  method UpperLoop(buf: seq<Byte>, r: nat) returns (out: seq<Byte>)
    requires r <= |buf|
    ensures |out| == |buf|
    ensures forall i :: 0 <= i < r ==> out[i] == ToUpper(buf[i])
    ensures forall i :: r <= i < |buf| ==> out[i] == buf[i]
    ensures out == UpperPrefix(buf, r)
  {
    out := buf;
    var i := 0;
    while i < r
      invariant 0 <= i <= r
      invariant |out| == |buf|
      invariant forall j :: 0 <= j < i ==> out[j] == ToUpper(buf[j])
      invariant forall j :: i <= j < |buf| ==> out[j] == buf[j]
    {
      out := out[i := ToUpper(out[i])];
      i := i + 1;
    }
    assert forall j :: 0 <= j < |buf| ==> out[j] == UpperPrefix(buf, r)[j];
  }

  /** strlen as the loop the C library runs. */
  method StrlenLoop(buf: seq<char>) returns (n: nat)
    requires NUL in buf
    ensures n == Strlen(buf)
    ensures n < |buf| && buf[n] == NUL
    ensures forall i :: 0 <= i < n ==> buf[i] != NUL
  {
    n := 0;
    while buf[n] != NUL
      invariant n < |buf|
      invariant forall i :: 0 <= i < n ==> buf[i] != NUL
      decreases |buf| - n
    {
      n := n + 1;
    }
  }

  /**
   * One request handled step by step as lines 66-82 do it; the bytes written
   * back are the promised reply.
   */
  method HandleRead(buf: seq<Byte>, data: seq<Byte>) returns (next: seq<Byte>, reply: seq<Byte>)
    requires |buf| == MAX && 0 < |data| <= MAX
    ensures |next| == MAX
    ensures reply == Respond(data)
    ensures next[TerminatorIndex(|data|)] == NUL
    ensures forall i :: |data| < i < MAX ==> next[i] == buf[i]
    ensures next == Handle(buf, data).buffer
  {
    var r := |data|;
    next := data + buf[r..];
    if r >= MAX {
      next := next[MAX - 1 := NUL];
    } else {
      next := next[r := NUL];
    }
    var k := TerminatorIndex(r);
    ghost var terminated := next;
    next := UpperLoop(next, r);
    assert next[k] == NUL by {
      if k < r {
        assert next[k] == ToUpper(terminated[k]);
      }
    }
    assert next[k] in next;
    var n := StrlenLoop(next);
    reply := next[..n];
    assert reply == UntilNul(next) by {
      UntilNulCut(next, n);
      UntilNulNoNul(next[..n]);
    }
    ReplyOfBuffer(next, data, k);
  }

  /** What one call of read delivered: its count, the bytes, and whether the write of the reply succeeded. */
  datatype ReadResult = ReadResult(count: int, data: seq<Byte>, writeOk: bool)

  /** read(ds, &uinput, 4096) returns at most 4096, and a positive count is the number of bytes read. */
  predicate ValidRead(rd: ReadResult)
  {
    rd.count > 0 ==> |rd.data| == rd.count <= MAX
  }

  /** How a connection ends in the model. */
  datatype Connection =
    | Closed(replies: seq<seq<Byte>>)        // read returned 0 or less: close(ds), back to accept
    | WriteFailed(replies: seq<seq<Byte>>)   // write returned -1: main returns ERR_SOCKET (5)
    | Open(replies: seq<seq<Byte>>)          // the results given so far all delivered data

  /** The loop at lines 66-86 on one accepted connection. */
  function Serve(buf: seq<Byte>, results: seq<ReadResult>): (c: Connection)
    requires |buf| == MAX
    requires forall i :: 0 <= i < |results| ==> ValidRead(results[i])
    ensures |c.replies| <= |results|
    ensures c.Open? <==> forall i :: 0 <= i < |results| ==> results[i].count > 0 && results[i].writeOk
    ensures !c.Open? ==> |c.replies| < |results|
    decreases |results|
  {
    if |results| == 0 then Open([])
    else if results[0].count <= 0 then Closed([])
    else if !results[0].writeOk then WriteFailed([])
    else
      assert ValidRead(results[0]);
      assert forall i :: 0 <= i < |results[1..]| ==> results[1..][i] == results[i + 1];
      var h := Handle(buf, results[0].data);
      var rest := Serve(h.buffer, results[1..]);
      var replies := [h.reply] + rest.replies;
      match rest
      case Closed(_) => Closed(replies)
      case WriteFailed(_) => WriteFailed(replies)
      case Open(_) => Open(replies)
  }

  /**
   * Every read with a positive count is answered, in order, with Respond of
   * its bytes, until a read returns 0 or less (the data socket is then
   * closed) or a write fails; when neither happened, every read was answered.
   */
  predicate Answers(results: seq<ReadResult>, c: Connection)
  {
    && |c.replies| <= |results|
    && (forall j :: 0 <= j < |c.replies| ==>
          results[j].count > 0 && results[j].writeOk && c.replies[j] == Respond(results[j].data))
    && (c.Closed? <==> |c.replies| < |results| && results[|c.replies|].count <= 0)
    && (c.WriteFailed? <==>
          |c.replies| < |results| && results[|c.replies|].count > 0 && !results[|c.replies|].writeOk)
    && (c.Open? <==> |c.replies| == |results|)
  }

  /** The connection loop answers its reads as promised, whatever the buffer held. */
  lemma {:induction false} ServeAnswers(buf: seq<Byte>, results: seq<ReadResult>)
    requires |buf| == MAX
    requires forall i :: 0 <= i < |results| ==> ValidRead(results[i])
    ensures Answers(results, Serve(buf, results))
    decreases |results|
  {
    if |results| > 0 && results[0].count > 0 && results[0].writeOk {
      assert ValidRead(results[0]);
      var tail := results[1..];
      assert forall i :: 0 <= i < |tail| ==> tail[i] == results[i + 1];
      var h := Handle(buf, results[0].data);
      ServeAnswers(h.buffer, tail);
      AnswersCons(results, h.reply, Serve(h.buffer, tail), Serve(buf, results));
    }
  }

  /** One answered read in front of a connection that answers the rest. */
  lemma {:induction false} AnswersCons(results: seq<ReadResult>, reply: seq<Byte>, rest: Connection, c: Connection)
    requires |results| > 0 && results[0].count > 0 && results[0].writeOk
    requires reply == Respond(results[0].data)
    requires Answers(results[1..], rest)
    requires c.replies == [reply] + rest.replies
    requires c.Closed? == rest.Closed? && c.WriteFailed? == rest.WriteFailed? && c.Open? == rest.Open?
    ensures Answers(results, c)
  {
    forall j | 0 < j < |c.replies|
      ensures c.replies[j] == rest.replies[j - 1] && results[j] == results[1..][j - 1]
    {
    }
  }
}
