/** The AT command exchange over the serial line (src/Module.cpp:82-126).
    The serial port is an event source and sink. Bytes waiting before an
    exchange are `pending`; the bytes that arrive while the response is
    awaited are `chunks`, one chunk per turn of the wait loop, and the loop
    turns exactly `|chunks|` times before the timeout unless a keyword ends
    it earlier. */
module AtLine {
  import opened Header

  /** One observable action on the serial line. */
  datatype SerialEvent = Rx(inByte: Byte) | Tx(outByte: Byte)

  function Reads(bytes: seq<Byte>): seq<SerialEvent>
  {
    seq(|bytes|, k requires 0 <= k < |bytes| => Rx(bytes[k]))
  }

  function Writes(bytes: seq<Byte>): seq<SerialEvent>
  {
    seq(|bytes|, k requires 0 <= k < |bytes| => Tx(bytes[k]))
  }

  /** The bytes written, in order. */
  function Sent(ev: seq<SerialEvent>): seq<Byte>
  {
    if ev == [] then []
    else if ev[0].Tx? then [ev[0].outByte] + Sent(ev[1..])
    else Sent(ev[1..])
  }

  /** The bytes read, in order. */
  function Received(ev: seq<SerialEvent>): seq<Byte>
  {
    if ev == [] then []
    else if ev[0].Rx? then [ev[0].inByte] + Received(ev[1..])
    else Received(ev[1..])
  }

  lemma {:induction false} SentReceivedAppend(a: seq<SerialEvent>, b: seq<SerialEvent>)
    ensures Sent(a + b) == Sent(a) + Sent(b)
    ensures Received(a + b) == Received(a) + Received(b)
  {
    if a != [] {
      assert (a + b)[1..] == a[1..] + b;
      SentReceivedAppend(a[1..], b);
    } else {
      assert a + b == b;
    }
  }

  lemma {:induction false} ProjectReads(bytes: seq<Byte>)
    ensures Sent(Reads(bytes)) == [] && Received(Reads(bytes)) == bytes
  {
    if bytes != [] {
      assert Reads(bytes)[1..] == Reads(bytes[1..]);
      ProjectReads(bytes[1..]);
      assert [bytes[0]] + bytes[1..] == bytes;
    }
  }

  lemma {:induction false} ProjectWrites(bytes: seq<Byte>)
    ensures Sent(Writes(bytes)) == bytes && Received(Writes(bytes)) == []
  {
    if bytes != [] {
      assert Writes(bytes)[1..] == Writes(bytes[1..]);
      ProjectWrites(bytes[1..]);
      assert [bytes[0]] + bytes[1..] == bytes;
    }
  }

  /** What `print(const char*)` writes: the bytes before the first NUL. */
  function CString(s: seq<Byte>): (r: seq<Byte>)
    ensures r <= s && 0 !in r
    ensures |r| == |s| || s[|r|] == 0
  {
    if s == [] || s[0] == 0 then [] else [s[0]] + CString(s[1..])
  }

  // ---------------------------------------------------------------------------
  // Substring search over the response buffer

  const OK: seq<Byte> := [0x4F, 0x4B]                    // "OK"
  const ERROR: seq<Byte> := [0x45, 0x52, 0x52, 0x4F, 0x52] // "ERROR"

  /** `pat` occurs in `s` starting at position `i`. */
  predicate OccursAt(s: seq<Byte>, pat: seq<Byte>, i: int)
  {
    0 <= i && i + |pat| <= |s| && s[i..i + |pat|] == pat
  }

  ghost predicate Contains(s: seq<Byte>, pat: seq<Byte>)
  {
    exists i :: OccursAt(s, pat, i)
  }

  /** `String::indexOf` from position `from`: the first occurrence, or -1. */
  function IndexFrom(s: seq<Byte>, pat: seq<Byte>, from: nat): (r: int)
    requires |pat| > 0
    ensures r == -1 <==> forall j :: from <= j ==> !OccursAt(s, pat, j)
    ensures r != -1 ==> from <= r && OccursAt(s, pat, r) && forall j :: from <= j < r ==> !OccursAt(s, pat, j)
    decreases |s| - from
  {
    if from + |pat| > |s| then -1
    else if s[from..from + |pat|] == pat then assert OccursAt(s, pat, from); from
    else IndexFrom(s, pat, from + 1)
  }

  function IndexOf(s: seq<Byte>, pat: seq<Byte>): (r: int)
    requires |pat| > 0
    ensures r == -1 <==> !Contains(s, pat)
    ensures r != -1 ==> OccursAt(s, pat, r) && forall j :: 0 <= j < r ==> !OccursAt(s, pat, j)
  {
    IndexFrom(s, pat, 0)
  }

  /** The verdict on a response buffer at one check. */
  datatype Status = FoundOk | FoundError | Pending

  /** The two tests of lines 115 and 118, in that order. */
  function Classify(buf: seq<Byte>): Status
  {
    if IndexOf(buf, OK) != -1 then FoundOk
    else if IndexOf(buf, ERROR) != -1 then FoundError
    else Pending
  }

  /** "OK" is looked for first, so it wins when both keywords are present. */
  lemma ClassifyMeaning(buf: seq<Byte>)
    ensures Classify(buf) == FoundOk <==> Contains(buf, OK)
    ensures Classify(buf) == FoundError <==> !Contains(buf, OK) && Contains(buf, ERROR)
    ensures Classify(buf) == Pending <==> !Contains(buf, OK) && !Contains(buf, ERROR)
  {
  }

  /** All chunks joined in order. */
  function Flatten(chunks: seq<seq<Byte>>): seq<Byte>
  {
    if chunks == [] then [] else chunks[0] + Flatten(chunks[1..])
  }

  /** Appending one chunk to the joined prefix gives the next prefix. */
  lemma {:induction false} FlattenSnoc(chunks: seq<seq<Byte>>, t: nat)
    requires t < |chunks|
    ensures Flatten(chunks[..t + 1]) == Flatten(chunks[..t]) + chunks[t]
  {
    if t > 0 {
      assert chunks[..t + 1][1..] == chunks[1..][..t];
      assert chunks[..t][1..] == chunks[1..][..t - 1];
      FlattenSnoc(chunks[1..], t - 1);
    } else {
      assert chunks[..1][1..] == [];
    }
  }

  /** The response buffer only grows: an earlier buffer is a prefix of a later one. */
  lemma {:induction false} FlattenGrows(chunks: seq<seq<Byte>>, i: nat, j: nat)
    requires i <= j <= |chunks|
    ensures Flatten(chunks[..i]) <= Flatten(chunks[..j])
    decreases j - i
  {
    if i < j {
      FlattenSnoc(chunks, j - 1);
      FlattenGrows(chunks, i, j - 1);
    }
  }

  /** How the wait ended: with success or not, after how many turns of the
      loop, and with which accumulated buffer. */
  datatype Response = Response(success: bool, turns: nat, buffer: seq<Byte>)

  /** The wait loop of lines 108-123 from turn `t` on, with `acc` the bytes
      drained in the first `t` turns, none of whose checks found a keyword. */
  function Await(chunks: seq<seq<Byte>>, t: nat, acc: seq<Byte>): (r: Response)
    requires t <= |chunks| && acc == Flatten(chunks[..t])
    requires forall j :: 0 < j <= t ==> Classify(Flatten(chunks[..j])) == Pending
    ensures t <= r.turns <= |chunks|
    ensures r.buffer == Flatten(chunks[..r.turns])
    ensures forall j :: 0 < j < r.turns ==> Classify(Flatten(chunks[..j])) == Pending
    ensures r.turns < |chunks| ==> r.turns > 0 && Classify(r.buffer) != Pending
    ensures r.success <==> r.turns > 0 && Classify(r.buffer) == FoundOk
    decreases |chunks| - t
  {
    if t == |chunks| then
      Response(false, t, acc)
    else
      var data := acc + chunks[t];
      FlattenSnoc(chunks, t);
      match Classify(data)
      case FoundOk => Response(true, t + 1, data)
      case FoundError => Response(false, t + 1, data)
      case Pending => Await(chunks, t + 1, data)
  }

  /** `ATgetResponse()`. */
  function GetResponse(chunks: seq<seq<Byte>>): (r: Response)
    // the buffer holds exactly the bytes drained so far
    ensures r.turns <= |chunks| && r.buffer == Flatten(chunks[..r.turns])
    // no earlier check saw a keyword
    ensures forall j :: 0 < j < r.turns ==>
      !Contains(Flatten(chunks[..j]), OK) && !Contains(Flatten(chunks[..j]), ERROR)
    // it stops before the timeout only on a keyword
    ensures r.turns < |chunks| ==> Contains(r.buffer, OK) || Contains(r.buffer, ERROR)
    // success exactly when "OK" was seen; "ERROR" alone or silence is failure
    ensures r.success <==> Contains(r.buffer, OK)
  {
    var r := Await(chunks, 0, []);
    ClassifyMeaning(r.buffer);
    assert forall j :: 0 < j < r.turns ==>
      !Contains(Flatten(chunks[..j]), OK) && !Contains(Flatten(chunks[..j]), ERROR) by {
      forall j | 0 < j < r.turns
        ensures !Contains(Flatten(chunks[..j]), OK) && !Contains(Flatten(chunks[..j]), ERROR)
      {
        ClassifyMeaning(Flatten(chunks[..j]));
      }
    }
    r
  }

  /** A response decided within `chunks` stays decided the same way however
      long the window would have lasted. */
  lemma GetResponseIgnoresLater(chunks: seq<seq<Byte>>, later: seq<seq<Byte>>)
    requires Contains(GetResponse(chunks).buffer, OK) || Contains(GetResponse(chunks).buffer, ERROR)
    ensures GetResponse(chunks + later) == GetResponse(chunks)
  {
    var all := chunks + later;
    var r1 := GetResponse(chunks);
    var r2 := GetResponse(all);
    assert forall n :: 0 <= n <= |chunks| ==> all[..n] == chunks[..n];
    assert !Contains([], OK) && !Contains([], ERROR);
    assert Flatten(chunks[..0]) == [] && Flatten(all[..0]) == [];
    assert Flatten(all[..r1.turns]) == r1.buffer;
    if r2.turns > r1.turns {
      assert false;
    }
    if r2.turns < r1.turns {
      assert false;
    }
  }

  /** `ATemptyBuffer()`: every waiting byte is read and dropped. */
  function EmptyBuffer(pending: seq<Byte>): (ev: seq<SerialEvent>)
    ensures Received(ev) == pending && Sent(ev) == []
    ensures forall k :: 0 <= k < |ev| ==> ev[k].Rx?
  {
    ProjectReads(pending);
    Reads(pending)
  }

  /** One exchange: what happened on the line and the verdict. */
  datatype Exchange = Exchange(success: bool, events: seq<SerialEvent>)

  /** A flush of `stale`, a write of `line`, then reads of `reply`: what
      goes out is exactly `line`, what comes in is `stale` then `reply`,
      and the three phases do not interleave. */
  lemma ExchangeShape(stale: seq<Byte>, line: seq<Byte>, reply: seq<Byte>)
    ensures var ev := Reads(stale) + Writes(line) + Reads(reply);
            && Sent(ev) == line
            && Received(ev) == stale + reply
            && |ev| == |stale| + |line| + |reply|
            && (forall k :: 0 <= k < |stale| ==> ev[k].Rx?)
            && (forall k :: |stale| <= k < |stale| + |line| ==> ev[k].Tx?)
            && (forall k :: |stale| + |line| <= k < |ev| ==> ev[k].Rx?)
  {
    ProjectReads(stale);
    ProjectWrites(line);
    ProjectReads(reply);
    SentReceivedAppend(Reads(stale), Writes(line));
    SentReceivedAppend(Reads(stale) + Writes(line), Reads(reply));
  }

  /** Flush, write `out` then the terminator, await the response. */
  function Transact(c: Consts, out: seq<Byte>, pending: seq<Byte>, chunks: seq<seq<Byte>>): (r: Exchange)
    requires c.Valid()
    ensures var resp := GetResponse(chunks);
            var line := out + c.lineFeed;
            && r.success == resp.success
            && Sent(r.events) == line
            && Received(r.events) == pending + resp.buffer
            && |r.events| == |pending| + |line| + |resp.buffer|
            && (forall k :: 0 <= k < |pending| ==> r.events[k].Rx?)
            && (forall k :: |pending| <= k < |pending| + |line| ==> r.events[k].Tx?)
            && (forall k :: |pending| + |line| <= k < |r.events| ==> r.events[k].Rx?)
  {
    var resp := GetResponse(chunks);
    assert CString(c.lineFeed) == c.lineFeed;
    assert Writes(out) + Writes(CString(c.lineFeed)) == Writes(out + c.lineFeed);
    ExchangeShape(pending, out + c.lineFeed, resp.buffer);
    Exchange(resp.success, EmptyBuffer(pending) + (Writes(out) + Writes(CString(c.lineFeed))) + Reads(resp.buffer))
  }

  /** `ATsendCommand(cmd)`: the command is written as a C string. */
  function SendCommand(c: Consts, cmd: seq<Byte>, pending: seq<Byte>, chunks: seq<seq<Byte>>): (r: Exchange)
    requires c.Valid()
    ensures r.success == GetResponse(chunks).success
    ensures Sent(r.events) == CString(cmd) + c.lineFeed
    ensures Received(r.events) == pending + GetResponse(chunks).buffer
    ensures var line := CString(cmd) + c.lineFeed;
            && |r.events| == |pending| + |line| + |GetResponse(chunks).buffer|
            && (forall k :: 0 <= k < |pending| ==> r.events[k].Rx?)
            && (forall k :: |pending| <= k < |pending| + |line| ==> r.events[k].Tx?)
            && (forall k :: |pending| + |line| <= k < |r.events| ==> r.events[k].Rx?)
  {
    Transact(c, CString(cmd), pending, chunks)
  }

  /** `ATsendData(data, len)`: exactly `len` raw bytes, NUL included. */
  function SendData(c: Consts, data: seq<Byte>, len: nat, pending: seq<Byte>, chunks: seq<seq<Byte>>): (r: Exchange)
    requires c.Valid()
    requires len <= |data|
    ensures r.success == GetResponse(chunks).success
    ensures Sent(r.events) == data[..len] + c.lineFeed
    ensures Received(r.events) == pending + GetResponse(chunks).buffer
    ensures var line := data[..len] + c.lineFeed;
            && |r.events| == |pending| + |line| + |GetResponse(chunks).buffer|
            && (forall k :: 0 <= k < |pending| ==> r.events[k].Rx?)
            && (forall k :: |pending| <= k < |pending| + |line| ==> r.events[k].Tx?)
            && (forall k :: |pending| + |line| <= k < |r.events| ==> r.events[k].Rx?)
  {
    Transact(c, data[..len], pending, chunks)
  }

  /** Bytes left over from an earlier exchange and already waiting at the
      flush do not affect the verdict. A byte of an earlier reply that arrives
      only after the flush is part of `chunks` and can decide the verdict. */
  lemma StaleBytesIgnored(c: Consts, cmd: seq<Byte>, p1: seq<Byte>, p2: seq<Byte>, chunks: seq<seq<Byte>>)
    requires c.Valid()
    ensures SendCommand(c, cmd, p1, chunks).success == SendCommand(c, cmd, p2, chunks).success
  {
  }

  /** "OK" arriving in the second turn: success then. */
  lemma OkInSecondTurn()
    ensures GetResponse([[], OK]) == Response(true, 2, OK)
  {
    var a: seq<seq<Byte>> := [[], OK];
    assert OccursAt(OK, OK, 0);
    assert a[..2] == a && Flatten([OK]) == OK + Flatten([]);
    assert Flatten(a[..1]) == [] && Flatten(a[..2]) == OK;
  }

  /** "ERROR" ends the wait at once, even if "OK" would follow. */
  lemma ErrorEndsWait()
    ensures GetResponse([ERROR, OK]) == Response(false, 1, ERROR)
  {
    var b: seq<seq<Byte>> := [ERROR, OK];
    assert OccursAt(ERROR, ERROR, 0);
    assert Flatten(b[..1]) == ERROR && Flatten(b[..0]) == [];
    assert !Contains(ERROR, OK) by {
      forall i | 0 <= i <= 3 ensures !OccursAt(ERROR, OK, i) {
        assert ERROR[i..i + 2] == [ERROR[i], ERROR[i + 1]];
      }
    }
  }

  /** Silence for the whole window is a failure. */
  lemma SilenceTimesOut()
    ensures GetResponse([[], [], []]) == Response(false, 3, [])
  {
    var s: seq<seq<Byte>> := [[], [], []];
    assert s[..3] == s;
    assert Flatten(s) == [];
  }

  /** A one-turn reply is judged on exactly its own bytes. */
  lemma SingleTurn(reply: seq<Byte>)
    ensures GetResponse([reply]).buffer == reply
    ensures GetResponse([reply]).success <==> Contains(reply, OK)
  {
    var s: seq<seq<Byte>> := [reply];
    assert s[..1] == s && Flatten(s) == reply + Flatten([]);
    assert Flatten(s[..0]) == [];
  }

  /** A keyword in the middle of other text ("junkOKmore") counts. */
  lemma KeywordAnywhere()
    ensures GetResponse([[0x6A, 0x75, 0x6E, 0x6B] + OK + [0x6D, 0x6F, 0x72, 0x65]]).success
  {
    var reply: seq<Byte> := [0x6A, 0x75, 0x6E, 0x6B] + OK + [0x6D, 0x6F, 0x72, 0x65];
    SingleTurn(reply);
    assert OccursAt(reply, OK, 4);
  }

  /** "OK" wins over "ERROR" arriving in the same turn. */
  lemma OkBeatsError()
    ensures GetResponse([ERROR + OK]).success
  {
    SingleTurn(ERROR + OK);
    assert OccursAt(ERROR + OK, OK, 5);
  }
}
