/** What a slave makes of a request, function code by function code: which requests parse, which are out of
    range, and what is then there for the responder. */
module RequestTheorems {
  import opened Bytes
  import opened Status
  import opened SlaveRequests

  /** The byte count at `at` counts bytes that are there. */
  predicate CountedFrom(pdu: seq<Byte>, at: nat)
    requires at < |pdu|
  {
    |pdu| >= at + 1 + pdu[at] as int
  }

  /** How long the fixed part of a request is, its function code included; 0 for the unknown codes. */
  function FixedPart(fc: Byte): nat {
    if fc in {0x01, 0x02, 0x03, 0x04, 0x05, 0x06, 0x08} then 5
    else if fc in {0x07, 0x0B, 0x0C, 0x11} then 1
    else if fc in {0x0F, 0x10} then 6
    else if fc in {0x14, 0x15} then 2
    else if fc == 0x16 then 7
    else if fc == 0x17 then 11
    else if fc == 0x18 then 3
    else 0
  }

  /** The request asks for fewer than one or more than the most its function code allows. */
  predicate OutOfRange(pdu: seq<Byte>)
    requires |pdu| >= 1 && |pdu| >= FixedPart(pdu[0])
  {
    var fc := pdu[0];
    || (fc in {0x01, 0x02} && !(1 <= Pair(pdu[3], pdu[4]) <= 2000))
    || (fc in {0x03, 0x04} && !(1 <= Pair(pdu[3], pdu[4]) <= 125))
    || (fc == 0x0F && !(1 <= Pair(pdu[3], pdu[4]) <= 1968))
    || (fc == 0x10 && !(1 <= Pair(pdu[3], pdu[4]) <= 123))
    || (fc == 0x17 && !(1 <= Pair(pdu[3], pdu[4]) <= 125 && 1 <= Pair(pdu[7], pdu[8]) <= 121))
  }

  /** The payload it counts is there, and fits; requests of other function codes have none. */
  predicate PayloadThere(pdu: seq<Byte>)
    requires |pdu| >= 1 && |pdu| >= FixedPart(pdu[0])
  {
    var fc := pdu[0];
    && (fc == 0x0F ==> CountedFrom(pdu, 5) && pdu[5] <= 33)
    && (fc == 0x10 ==> CountedFrom(pdu, 5))
    && (fc in {0x14, 0x15} ==> CountedFrom(pdu, 1))
    && (fc == 0x17 ==> CountedFrom(pdu, 9))
  }

  /** The verdict on every request: a protocol error where the function code is not known or bytes are missing,
      a bad parameter where a count is out of range, and that whether or not the payload is there. */
  lemma RequestVerdict(q: RequestState, pdu: seq<Byte>)
    ensures var status := ParseRequest(q, pdu).0;
      var known := |pdu| >= 1 && FixedPart(pdu[0]) > 0 && |pdu| >= FixedPart(pdu[0]);
      && (status == Err(ErrBadParam) <==> known && OutOfRange(pdu))
      && (status == Ok <==> known && !OutOfRange(pdu) && PayloadThere(pdu))
      && (status == Ok || status == Err(ErrBadParam) || status == Err(ErrProtocol))
  {
  }

  /** What is kept whatever the verdict: an empty request changes nothing, and any other leaves its function
      code, and marks its data valid only where it parsed and carried some. */
  lemma RequestHeader(q: RequestState, pdu: seq<Byte>)
    ensures var (status, q') := ParseRequest(q, pdu);
      && (pdu == [] ==> q' == q)
      && (pdu != [] ==>
            && q'.lastFunction == pdu[0]
            && (q'.dataValid <==>
                  status == Ok && pdu[0] in {0x05, 0x06, 0x08, 0x0F, 0x10, 0x14, 0x15, 0x16, 0x17}))
  {
  }

  /** The address and the count for the responder: those of the request; 1 where it is about one coil or
      register; and 0 where it has none. */
  lemma RequestTarget(q: RequestState, pdu: seq<Byte>)
    requires ParseRequest(q, pdu).0 == Ok
    ensures var q' := ParseRequest(q, pdu).1;
      var fc := pdu[0];
      && q'.addr == (if fc in {0x07, 0x0B, 0x0C, 0x11, 0x14, 0x15} then 0 else Pair(pdu[1], pdu[2]))
      && q'.count == (if fc in {0x01, 0x02, 0x03, 0x04, 0x0F, 0x10, 0x17} then Pair(pdu[3], pdu[4])
                      else if fc in {0x05, 0x06, 0x16} then 1 else 0)
  {
  }

  /** A request that does not parse leaves both buffers as they were, and the target too, but for the reads and
      the multiple writes, which store it before they look at their count or payload. */
  lemma RequestRefused(q: RequestState, pdu: seq<Byte>)
    requires ParseRequest(q, pdu).0 != Ok
    ensures var q' := ParseRequest(q, pdu).1;
      && q'.coils == q.coils && q'.coilCount == q.coilCount && q'.regs == q.regs && q'.regCount == q.regCount
      && (if |pdu| >= 5 && pdu[0] in {0x01, 0x02, 0x03, 0x04, 0x0F, 0x10} && |pdu| >= FixedPart(pdu[0]) then
            q'.addr == Pair(pdu[1], pdu[2]) && q'.count == Pair(pdu[3], pdu[4])
          else q'.addr == q.addr && q'.count == q.count)
  {
  }

  /** The front of a buffer was overwritten, and the rest of it is as before. */
  ghost predicate FrontIs<T(!new)>(now: seq<T>, front: seq<T>, was: seq<T>) {
    && |now| == |was| && |front| <= |was|
    && forall k: nat :: k < |was| ==> now[k] == if k < |front| then front[k] else was[k]
  }

  lemma Overwritten<T(!new)>(was: seq<T>, front: seq<T>)
    requires |front| <= |was|
    ensures FrontIs(Overwrite(was, front), front, was)
  {
  }

  /** Where the registers of a request start, and how many bytes of them there are. */
  function RegisterBytes(pdu: seq<Byte>): (r: (nat, nat))
    requires |pdu| >= 1 && |pdu| >= FixedPart(pdu[0])
  {
    var fc := pdu[0];
    if fc in {0x06, 0x08} then (3, 2)
    else if fc == 0x16 then (3, 4)
    else if fc == 0x10 then (6, pdu[5])
    else if fc in {0x14, 0x15} then (2, pdu[1])
    else if fc == 0x17 then (10, pdu[9])
    else (0, 0)
  }

  /** The register buffer for the responder: the registers of the request in front, each high byte first, an
      odd last byte left out; and behind them, what was there. */
  lemma RequestRegisters(q: RequestState, pdu: seq<Byte>)
    requires ParseRequest(q, pdu).0 == Ok
    ensures |pdu| >= 1 && |pdu| >= FixedPart(pdu[0])
    ensures var q' := ParseRequest(q, pdu).1;
      var (at, bytes) := RegisterBytes(pdu);
      && at + bytes <= |pdu|
      && q'.regCount == (if pdu[0] in {0x06, 0x08, 0x10, 0x14, 0x15, 0x16, 0x17} then bytes / 2 else q.regCount)
      && |q'.regs| == REGISTERS
      && forall k: nat :: k < REGISTERS ==>
           q'.regs[k] == if k < bytes / 2 then Pair(pdu[at + 2 * k], pdu[at + 2 * k + 1]) else q.regs[k]
  {
    hide GetWords, Overwrite;
    RequestVerdict(q, pdu);
    var (at, bytes) := RegisterBytes(pdu);
    WordsInFront(q.regs, pdu, at, bytes / 2);
    if pdu[0] in {0x06, 0x08} {
      assert GetWords(pdu, 3, 1) == [Get16(pdu, 3)];
    } else if pdu[0] == 0x16 {
      assert GetWords(pdu, 3, 2) == [Get16(pdu, 3), Get16(pdu, 5)];
    }
  }

  lemma WordsInFront(was: seq<Word>, pdu: seq<Byte>, at: nat, n: nat)
    requires at + 2 * n <= |pdu| && n <= |was|
    ensures |GetWords(pdu, at, n)| == n
    ensures n == 1 ==> GetWords(pdu, at, n) == [Get16(pdu, at)]
    ensures n == 2 ==> GetWords(pdu, at, n) == [Get16(pdu, at), Get16(pdu, at + 2)]
    ensures var now := Overwrite(was, GetWords(pdu, at, n));
      forall k: nat :: k < |was| ==>
        now[k] == if k < n then Pair(pdu[at + 2 * k], pdu[at + 2 * k + 1]) else was[k]
  {
  }

  /** The coil buffer for the responder: of FC 05, 1 exactly for the value 0xFF00; of FC 0F, the bytes of the
      request; of FC 17, its write address and write count; and behind that, what was there. */
  lemma RequestCoils(q: RequestState, pdu: seq<Byte>)
    requires ParseRequest(q, pdu).0 == Ok
    ensures var q' := ParseRequest(q, pdu).1;
      var fc := pdu[0];
      && (fc == 0x05 ==> q'.coilCount == 1 && FrontIs(q'.coils, [if pdu[3..5] == [0xFF, 0x00] then 1 else 0], q.coils))
      && (fc == 0x0F ==>
            q'.coilCount == q'.count && FrontIs(q'.coils, pdu[6..6 + pdu[5] as int], q.coils))
      && (fc == 0x17 ==> q'.coilCount == q.coilCount && FrontIs(q'.coils, pdu[5..9], q.coils))
      && (fc !in {0x05, 0x0F, 0x17} ==> q'.coils == q.coils && q'.coilCount == q.coilCount)
  {
    RequestVerdict(q, pdu);
    if pdu[0] == 0x17 {
      assert pdu[5..9] == Put16(Get16(pdu, 5)) + Put16(Get16(pdu, 7));
    }
  }
}
