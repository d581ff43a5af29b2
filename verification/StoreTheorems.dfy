/** What requests do to the store: which writes depend on the request alone, and which refusals change
    nothing. */
module StoreTheorems {
  import opened Bytes
  import opened Bits
  import opened Status
  import opened Responder
  import opened SlaveRequests

  /** The store after a request, whether it is answered, refused, or not even parsed. */
  function BankAfter(cb: Callbacks, q: RequestState, bank: Bank, pdu: seq<Byte>): Bank {
    var (parsed, q') := ParseRequest(q, pdu);
    if parsed == Ok && Answerable(q') then Respond(cb, q', bank).bank else bank
  }

  /** The store after a request is the same whatever requests came before it. */
  ghost predicate DependsOnRequestOnly(cb: Callbacks, bank: Bank, pdu: seq<Byte>) {
    forall q: RequestState, r: RequestState :: BankAfter(cb, q, bank, pdu) == BankAfter(cb, r, bank, pdu)
  }

  /** A parse state whose buffers hold one value throughout. */
  function Filled(coil: Byte, register: Word): RequestState {
    INITIAL.(coils := seq(COIL_BYTES, _ => coil), regs := seq(REGISTERS, _ => register))
  }

  // ---- Which writes depend on the request alone ----

  /** What an FC 10 request does to the store depends on that request alone exactly when it is refused, or its
      byte count covers its register count: the parser does not compare the two, and the rest comes out of the
      buffer of an earlier request. */
  lemma WriteRegistersDetermined(cb: Callbacks, bank: Bank, pdu: seq<Byte>, count: nat)
    requires |pdu| >= 6 && pdu[0] == 0x10 && |pdu| >= 6 + pdu[5] as int
    requires 1 <= count <= 123 && Get16(pdu, 3) == count
    ensures DependsOnRequestOnly(cb, bank, pdu)
       <==> (cb.writeRegisters && Get16(pdu, 1) as int + count <= |bank.holding| ==> count <= pdu[5] / 2)
  {
    hide GetWords, WriteRegistersFrom, BankAfter;
    var words := GetWords(pdu, 6, pdu[5] / 2);
    forall q: RequestState
      ensures BankAfter(cb, q, bank, pdu)
           == if cb.writeRegisters then WriteRegistersFrom(bank, Get16(pdu, 1), words, q, count) else bank
    {
      RegistersAfter(cb, q, bank, pdu, count);
    }
    RegistersTaken(bank, Get16(pdu, 1), words, count);
  }

  /** The same of the write half of FC 17. */
  lemma ReadWriteDetermined(cb: Callbacks, bank: Bank, pdu: seq<Byte>, count: nat)
    requires |pdu| >= 11 && pdu[0] == 0x17 && |pdu| >= 10 + pdu[9] as int
    requires 1 <= Get16(pdu, 3) <= 125 && 1 <= count <= 121 && Get16(pdu, 7) == count
    ensures DependsOnRequestOnly(cb, bank, pdu)
       <==> (cb.readHolding && cb.writeRegisters && Get16(pdu, 5) as int + count <= |bank.holding| ==>
               count <= pdu[9] / 2)
  {
    hide GetWords, WriteRegistersFrom, BankAfter;
    var words := GetWords(pdu, 10, pdu[9] / 2);
    forall q: RequestState
      ensures BankAfter(cb, q, bank, pdu)
           == if cb.readHolding && cb.writeRegisters then WriteRegistersFrom(bank, Get16(pdu, 5), words, q, count)
              else bank
    {
      ReadWriteAfter(cb, q, bank, pdu, count);
    }
    RegistersTaken(bank, Get16(pdu, 5), words, count);
  }

  /** The store after `count` registers are written out of a buffer into which `words` were parsed. */
  function WriteRegistersFrom(bank: Bank, addr: Word, words: seq<Word>, q: RequestState, count: nat): Bank
    requires |words| <= REGISTERS && count <= REGISTERS
  {
    if addr as int + count > |bank.holding| then bank
    else bank.(holding := Splice(bank.holding, addr, Overwrite(q.regs, words)[..count]))
  }

  lemma RegistersTaken(bank: Bank, addr: Word, words: seq<Word>, count: nat)
    requires |words| <= REGISTERS && 1 <= count <= REGISTERS
    ensures (forall q: RequestState, r: RequestState ::
               WriteRegistersFrom(bank, addr, words, q, count) == WriteRegistersFrom(bank, addr, words, r, count))
       <==> (addr as int + count <= |bank.holding| ==> count <= |words|)
  {
    hide Splice;
    if count <= |words| {
      forall q: RequestState
        ensures Overwrite(q.regs, words)[..count] == words[..count]
      {
      }
    } else if addr as int + count <= |bank.holding| {
      StaleRegister(bank.holding, addr, words, count);
      assert WriteRegistersFrom(bank, addr, words, Filled(0, 0), count)
          != WriteRegistersFrom(bank, addr, words, Filled(0, 1), count);
    }
  }

  lemma RegistersAfter(cb: Callbacks, q: RequestState, bank: Bank, pdu: seq<Byte>, count: nat)
    requires |pdu| >= 6 && pdu[0] == 0x10 && |pdu| >= 6 + pdu[5] as int
    requires 1 <= count <= 123 && Get16(pdu, 3) == count
    ensures BankAfter(cb, q, bank, pdu)
         == if cb.writeRegisters then WriteRegistersFrom(bank, Get16(pdu, 1), GetWords(pdu, 6, pdu[5] / 2), q, count)
            else bank
  {
    hide GetWords, Splice;
  }

  lemma ReadWriteAfter(cb: Callbacks, q: RequestState, bank: Bank, pdu: seq<Byte>, count: nat)
    requires |pdu| >= 11 && pdu[0] == 0x17 && |pdu| >= 10 + pdu[9] as int
    requires 1 <= Get16(pdu, 3) <= 125 && 1 <= count <= 121 && Get16(pdu, 7) == count
    ensures BankAfter(cb, q, bank, pdu)
         == if cb.readHolding && cb.writeRegisters then
              WriteRegistersFrom(bank, Get16(pdu, 5), GetWords(pdu, 10, pdu[9] / 2), q, count)
            else bank
  {
    hide GetWords, Splice, ReadHolding, RegistersPdu;
  }

  /** A register past the words of the request comes out of the buffer. */
  lemma StaleRegister(holding: seq<Word>, addr: nat, words: seq<Word>, count: nat)
    requires |words| < count <= REGISTERS && addr + count <= |holding|
    ensures Splice(holding, addr, Overwrite(Filled(0, 0).regs, words)[..count])[addr + |words|] == 0
    ensures Splice(holding, addr, Overwrite(Filled(0, 1).regs, words)[..count])[addr + |words|] == 1
  {
    hide Splice;
    SpliceWritten(holding, addr, Overwrite(Filled(0, 0).regs, words)[..count], |words|);
    SpliceWritten(holding, addr, Overwrite(Filled(0, 1).regs, words)[..count], |words|);
  }

  /** How many of its coils an FC 0F request gets to write before the store ends. */
  function CoilsReached(coils: Space<bool>, addr: Word, count: nat): nat {
    if HasCoils(coils, addr, count) then count else if addr < |coils| then |coils| - addr else 0
  }

  /** The same of FC 0F, whose byte count must cover the coils that are reached, eight a byte: also where the
      request runs out of the store and is refused, or wraps around. */
  lemma WriteCoilsDetermined(cb: Callbacks, bank: Bank, pdu: seq<Byte>, count: nat)
    requires |pdu| >= 6 && pdu[0] == 0x0F && |pdu| >= 6 + pdu[5] as int && pdu[5] <= COIL_BYTES
    requires 1 <= count <= 264 && Get16(pdu, 3) == count
    ensures DependsOnRequestOnly(cb, bank, pdu)
       <==> (cb.writeCoils ==> CoilsReached(bank.coils, Get16(pdu, 1), count) <= 8 * pdu[5] as int)
  {
    hide UnpackBits, WriteCoilsFrom, BankAfter, CoilsReached;
    var addr, n: int := Get16(pdu, 1), pdu[5];
    var packed := pdu[6..6 + n];
    forall q: RequestState
      ensures BankAfter(cb, q, bank, pdu)
           == if !cb.writeCoils then bank else
              bank.(coils := WriteCoilsFrom(bank.coils, addr, UnpackBits(Overwrite(q.coils, packed), count)))
    {
      CoilsAfter(cb, q, bank, pdu, count);
    }
    var reached := CoilsReached(bank.coils, addr, count);
    ReachedAtMost(bank.coils, addr, count);
    if reached <= 8 * n {
      forall q: RequestState, r: RequestState
        ensures WriteCoilsFrom(bank.coils, addr, UnpackBits(Overwrite(q.coils, packed), count))
             == WriteCoilsFrom(bank.coils, addr, UnpackBits(Overwrite(r.coils, packed), count))
      {
        CoveredCoils(q.coils, r.coils, packed, count, reached);
        OnlyReached(bank.coils, addr, UnpackBits(Overwrite(q.coils, packed), count),
                    UnpackBits(Overwrite(r.coils, packed), count));
      }
    } else if cb.writeCoils {
      StaleCoil(bank.coils, addr, packed, count);
      assert BankAfter(cb, Filled(0, 0), bank, pdu) != BankAfter(cb, Filled(0xFF, 0), bank, pdu);
    }
  }

  lemma CoilsAfter(cb: Callbacks, q: RequestState, bank: Bank, pdu: seq<Byte>, count: nat)
    requires |pdu| >= 6 && pdu[0] == 0x0F && |pdu| >= 6 + pdu[5] as int && pdu[5] <= COIL_BYTES
    requires 1 <= count <= 264 && Get16(pdu, 3) == count
    ensures BankAfter(cb, q, bank, pdu)
         == if !cb.writeCoils then bank else
            bank.(coils := WriteCoilsFrom(bank.coils, Get16(pdu, 1),
                                          UnpackBits(Overwrite(q.coils, pdu[6..6 + pdu[5] as int]), count)))
  {
    hide UnpackBits, WriteCoilsFrom;
  }

  /** Coils that the bytes of the request cover are the same whatever the buffer held. */
  lemma CoveredCoils(was: seq<Byte>, other: seq<Byte>, packed: seq<Byte>, count: nat, reached: nat)
    requires |packed| <= |was| == |other| && reached <= count <= 8 * |was| && reached <= 8 * |packed|
    ensures UnpackBits(Overwrite(was, packed), count)[..reached]
         == UnpackBits(Overwrite(other, packed), count)[..reached]
  {
    hide BitOf;
  }

  /** Coils past those reached play no part. */
  lemma OnlyReached(coils: Space<bool>, addr: Word, values: seq<bool>, others: seq<bool>)
    requires |values| == |others| < 0x1_0000
    requires CoilsReached(coils, addr, |values|) <= |values|
    requires var n := CoilsReached(coils, addr, |values|); values[..n] == others[..n]
    ensures WriteCoilsFrom(coils, addr, values) == WriteCoilsFrom(coils, addr, others)
  {
    hide Splice;
    if CoilsReached(coils, addr, |values|) == |values| {
      assert values[..|values|] == values && others[..|others|] == others;
    }
  }

  /** Each coil reached is written at its 16-bit address. */
  lemma CoilWrittenAt(coils: Space<bool>, addr: Word, values: seq<bool>, k: nat)
    requires k < |values| < 0x1_0000 && k < CoilsReached(coils, addr, |values|)
    ensures var at := (addr as int + k) % 0x1_0000;
      at < |coils| && WriteCoilsFrom(coils, addr, values)[at] == values[k]
  {
    hide Splice;
    var at := addr as int + k;
    if at as int + |values| - k <= |coils| {
      SpliceWritten(coils, addr, values, k);
    } else {
      var n := |coils| - addr;
      var written := Splice(coils, addr, values[..n]);
      if k < n {
        SpliceWritten(coils, addr, values[..n], k);
        if |coils| == 0x1_0000 {
          SpliceKept(written, 0, values[n..], at);
        }
      } else {
        SpliceWritten(written, 0, values[n..], k - n);
      }
    }
  }

  /** And no other coil is. */
  lemma CoilKept(coils: Space<bool>, addr: Word, values: seq<bool>, j: nat)
    requires |values| < 0x1_0000 && j < |coils| && (j - addr) % 0x1_0000 >= CoilsReached(coils, addr, |values|)
    ensures WriteCoilsFrom(coils, addr, values)[j] == coils[j]
  {
    hide Splice;
    if addr as int + |values| <= |coils| {
      SpliceKept(coils, addr, values, j);
    } else if addr < |coils| {
      var n := |coils| - addr;
      var written := Splice(coils, addr, values[..n]);
      if j < addr {
        SpliceKept(coils, addr, values[..n], j);
        if |coils| == 0x1_0000 {
          SpliceKept(written, 0, values[n..], j);
        }
      }
    }
  }

  /** All coils are reached exactly when each of their addresses, of 16 bits, exists. */
  lemma AllReached(coils: Space<bool>, addr: Word, count: nat)
    ensures HasCoils(coils, addr, count) <==> forall k: nat :: k < count ==> CoilAddress(addr, k) < |coils|
  {
    if !HasCoils(coils, addr, count) {
      var k := if addr < |coils| then |coils| - addr else 0;
      assert k < count && CoilAddress(addr, k) >= |coils|;
    }
  }

  /** The 16-bit address of the coil `k` places behind `addr`. */
  function CoilAddress(addr: Word, k: nat): nat {
    (addr as int + k) % 0x1_0000
  }

  lemma SpliceWritten<T>(s: seq<T>, at: nat, ws: seq<T>, k: nat)
    requires at + |ws| <= |s| && k < |ws|
    ensures Splice(s, at, ws)[at + k] == ws[k]
  {
  }

  lemma SpliceKept<T>(s: seq<T>, at: nat, ws: seq<T>, j: nat)
    requires at + |ws| <= |s| && j < |s| && !(at <= j < at + |ws|)
    ensures Splice(s, at, ws)[j] == s[j]
  {
  }

  /** A coil past the bytes of the request comes out of the buffer. */
  lemma StaleCoil(coils: Space<bool>, addr: Word, packed: seq<Byte>, count: nat)
    requires 8 * |packed| < CoilsReached(coils, addr, count) && count <= 264 && |packed| <= COIL_BYTES
    ensures CoilsReached(coils, addr, count) <= count
    ensures WriteCoilsFrom(coils, addr, UnpackBits(Overwrite(Filled(0, 0).coils, packed), count))
         != WriteCoilsFrom(coils, addr, UnpackBits(Overwrite(Filled(0xFF, 0).coils, packed), count))
  {
    hide WriteCoilsFrom, HasCoils;
    var k := 8 * |packed|;
    FirstBit();
    assert k / 8 == |packed| && k % 8 == 0;
    ReachedAtMost(coils, addr, count);
    var off := UnpackBits(Overwrite(Filled(0, 0).coils, packed), count);
    var on := UnpackBits(Overwrite(Filled(0xFF, 0).coils, packed), count);
    assert !off[k] && on[k];
    CoilWrittenAt(coils, addr, off, k);
    CoilWrittenAt(coils, addr, on, k);
  }

  lemma ReachedAtMost(coils: Space<bool>, addr: Word, count: nat)
    ensures CoilsReached(coils, addr, count) <= count
  {
  }

  lemma FirstBit()
    ensures !BitOf(0, 0) && BitOf(0xFF, 0)
  {
  }

  // ---- Which refusals change nothing ----

  /** Stores of the same sizes that serve the same blocks. */
  predicate SameShape(b: Bank, c: Bank) {
    && |b.holding| == |c.holding| && |b.coils| == |c.coils|
    && b.serverId.Some? == c.serverId.Some? && b.eventLog.Some? == c.eventLog.Some?
  }

  /** The request writes some coils and then runs out of the store. */
  predicate StopsHalfway(cb: Callbacks, q: RequestState, bank: Bank) {
    q.lastFunction == 0x0F && cb.writeCoils && q.addr < |bank.coils| && !HasCoils(bank.coils, q.addr, q.count)
  }

  /** The request writes its registers and then cannot read. */
  predicate WritesThenFails(cb: Callbacks, q: RequestState, bank: Bank)
    requires Answerable(q)
  {
    q.lastFunction == 0x17 && cb.readHolding && cb.writeRegisters &&
    var addr, count := Get16(q.coils, 0), Get16(q.coils, 2);
    && 0 < count && addr as int + count <= |bank.holding|
    && ReadHolding(bank, q.addr, q.count).None?
  }

  /** A refused request leaves every store of this shape as it was exactly when it neither stops halfway
      through its coils nor writes registers before a read that fails. */
  lemma RefusalKeepsStore(cb: Callbacks, q: RequestState, shape: Bank)
    requires Answerable(q)
    ensures (forall bank: Bank :: SameShape(bank, shape) ==>
               (Respond(cb, q, bank).Refusal? ==> Respond(cb, q, bank).bank == bank))
       <==> !StopsHalfway(cb, q, shape) && !WritesThenFails(cb, q, shape)
  {
    hide Respond, StopsHalfway, WritesThenFails;
    forall bank: Bank | SameShape(bank, shape)
      ensures Respond(cb, q, bank).Refusal? ==>
        Respond(cb, q, bank).bank == bank || StopsHalfway(cb, q, shape) || WritesThenFails(cb, q, shape)
    {
      RefusalChanges(cb, q, bank);
      ShapeDecides(cb, q, bank, shape);
    }
    if StopsHalfway(cb, q, shape) {
      HalfwayWitness(cb, q, shape);
    } else if WritesThenFails(cb, q, shape) {
      FailureWitness(cb, q, shape);
    }
  }

  lemma ShapeDecides(cb: Callbacks, q: RequestState, bank: Bank, shape: Bank)
    requires Answerable(q) && SameShape(bank, shape)
    ensures StopsHalfway(cb, q, bank) <==> StopsHalfway(cb, q, shape)
    ensures WritesThenFails(cb, q, bank) <==> WritesThenFails(cb, q, shape)
  {
  }

  lemma RefusalChanges(cb: Callbacks, q: RequestState, bank: Bank)
    requires Answerable(q)
    ensures Respond(cb, q, bank).Refusal? ==>
      Respond(cb, q, bank).bank == bank || StopsHalfway(cb, q, bank) || WritesThenFails(cb, q, bank)
  {
    hide CoilsPdu, RegistersPdu, ServerIdPdu, QueuePdu, PutWords, PackBits, UnpackBits, Masked;
  }

  /** A store whose first coil differs from what is written there. */
  lemma HalfwayWitness(cb: Callbacks, q: RequestState, shape: Bank)
    requires Answerable(q) && StopsHalfway(cb, q, shape)
    ensures exists bank: Bank :: SameShape(bank, shape) && Respond(cb, q, bank).Refusal?
                              && Respond(cb, q, bank).bank != bank
  {
    var values := UnpackBits(q.coils, q.count);
    var coils: Space<bool> := seq(|shape.coils|, _ => !values[0]);
    var bank := shape.(coils := coils);
    assert Respond(cb, q, bank).Refusal? && Respond(cb, q, bank).bank.coils[q.addr] == values[0];
  }

  /** A store whose registers differ from what is written there. */
  lemma FailureWitness(cb: Callbacks, q: RequestState, shape: Bank)
    requires Answerable(q) && WritesThenFails(cb, q, shape)
    ensures exists bank: Bank :: SameShape(bank, shape) && Respond(cb, q, bank).Refusal?
                              && Respond(cb, q, bank).bank != bank
  {
    var addr := Get16(q.coils, 0);
    var other: Word := if q.regs[0] == 0 then 1 else 0;
    var holding: Space<Word> := seq(|shape.holding|, _ => other);
    var bank := shape.(holding := holding);
    ShapeDecides(cb, q, bank, shape);
    assert Respond(cb, q, bank).Refusal? && Respond(cb, q, bank).bank.holding[addr] == q.regs[0];
  }
}
