/** What the credential store is for: it behaves like a map, it survives reboots, a power loss between
    its two flash writes touches no other credential, and the PIN check is about addressable credentials;
    and exactly how much data a credential may have before it changes another one. */
module CredentialProperties {
  import opened DoorLockTypes
  import opened CredentialStore

  /** Memory and flash of one device. */
  datatype System = System(ram: CredentialRam, flash: CredentialFlash)

  datatype Operation =
    | Set(e: Entry)
    | Reboot
    | SetThenPowerLoss(e: Entry, writes: nat)  // power is lost after that many of the two writes, then the device boots

  const FACTORY_NEW := System(FreshRam(), EMPTY_FLASH)

  /** The copy of the call stays inside the buffer. Nothing in the code bounds it by the row. */
  predicate Inside(op: Operation) {
    op.Reboot? || CopyStaysInside(op.e)
  }

  // ---- Rooms

  /** The slots that some key names. */
  predicate Addressable(slot: nat) {
    slot == 0 || (MAX_CREDENTIALS <= slot < NUM_SLOTS && slot % MAX_CREDENTIALS < MAX_CREDENTIALS_PER_USER)
  }

  /** The next slot that some key names, or the end of the buffer. */
  function NextSlot(slot: nat): nat {
    if slot > 0 && slot % MAX_CREDENTIALS < MAX_CREDENTIALS_PER_USER - 1 then slot + 1
    else MAX_CREDENTIALS * (slot / MAX_CREDENTIALS + 1)
  }

  lemma NextSlotIsNext(slot: nat)
    requires Addressable(slot)
    ensures slot < NextSlot(slot) <= NUM_SLOTS
    ensures NextSlot(slot) == NUM_SLOTS || Addressable(NextSlot(slot))
    ensures forall other: nat :: Addressable(other) ==> other <= slot || NextSlot(slot) <= other
  {
  }

  /** The bytes from a slot's row up to the next row that belongs to a key. */
  function Room(slot: nat): (room: nat)
    requires Addressable(slot)
    ensures room >= ROW_SIZE && ROW_SIZE * slot + room <= BUFFER_SIZE
  {
    NextSlotIsNext(slot);
    ROW_SIZE * (NextSlot(slot) - slot)
  }

  /** The data of the call does not reach the row of another key. */
  predicate Fits(op: Operation) {
    op.Reboot? || !IsKey(op.e.ctype, op.e.index) || |op.e.data| <= Room(Slot(op.e.ctype, op.e.index))
  }

  lemma FitsIsInside(op: Operation)
    requires Fits(op)
    ensures Inside(op)
  {
    if !op.Reboot? {
      SlotsAreDistinct(op.e.ctype, op.e.index, op.e.ctype, op.e.index);
    }
  }

  // ---- Systems

  /** Memory is what flash would load, and only slots that a key names are occupied. */
  ghost predicate Sound(s: System) {
    && WellFormed(s.ram) && Load(s.flash) == s.ram
    && forall slot :: 0 <= slot < NUM_SLOTS && s.ram.infos[slot].status.Occupied? ==> Addressable(slot)
  }

  /** Moreover no data reaches the row of another key. */
  ghost predicate Consistent(s: System) {
    Sound(s) && forall slot: nat :: Addressable(slot) ==> s.ram.infos[slot].data.len <= Room(slot)
  }

  function Rebooted(flash: CredentialFlash): System {
    System(Load(flash), flash)
  }

  function Next(s: System, op: Operation): System
    requires WellFormed(s.ram) && Inside(op)
  {
    match op
    case Reboot => Rebooted(s.flash)
    case Set(e) =>
      if IsKey(e.ctype, e.index) then
        var ram := PutAt(s.ram, Slot(e.ctype, e.index), e);
        System(ram, AfterWrites(s.flash, ram, 2))
      else s
    case SetThenPowerLoss(e, writes) =>
      if IsKey(e.ctype, e.index) then
        Rebooted(AfterWrites(s.flash, PutAt(s.ram, Slot(e.ctype, e.index), e), writes))
      else Rebooted(s.flash)
  }

  function Slot(ctype: UInt8, index: UInt16): (slot: nat)
    requires IsKey(ctype, index)
    ensures slot < NUM_SLOTS && Addressable(slot) && SlotOf(ctype, index) == Some(slot)
  {
    SlotOf(ctype, index).value
  }

  // ---- One operation

  /** The credential a call asks for. */
  function Requested(e: Entry): Credential {
    if e.status.Available? then Unoccupied else Credential(e.ctype, e.data, e.creator, e.modifier)
  }

  lemma PutReads(ram: CredentialRam, slot: nat, e: Entry)
    requires WellFormed(ram) && slot < NUM_SLOTS && ROW_SIZE * slot + |e.data| <= BUFFER_SIZE
    ensures WellFormed(PutAt(ram, slot, e)) && CredentialAt(PutAt(ram, slot, e), slot) == Requested(e)
  {
    PutKeepsWellFormed(ram, slot, e);
    assert Bytes(PutAt(ram, slot, e), Span(slot, |e.data|)) == e.data;
  }

  ghost predicate SameBytes(bytes: seq<Byte>, bytes': seq<Byte>, slot: nat)
    requires |bytes| == |bytes'| == BUFFER_SIZE && Addressable(slot)
  {
    forall i :: ROW_SIZE * slot <= i < ROW_SIZE * slot + Room(slot) ==> bytes[i] == bytes'[i]
  }

  /** What is read at a slot depends on its record and the bytes of its room only. */
  lemma SameRoom(ram: CredentialRam, ram': CredentialRam, slot: nat)
    requires WellFormed(ram) && WellFormed(ram') && Addressable(slot)
    requires ram.infos[slot] == ram'.infos[slot] && ram.infos[slot].data.len <= Room(slot)
    requires SameBytes(ram.bytes, ram'.bytes, slot)
    ensures CredentialAt(ram, slot) == CredentialAt(ram', slot)
  {
    var span := ram.infos[slot].data;
    if span.len > 0 {
      assert Bytes(ram, span) == Bytes(ram', span);
    }
  }

  lemma OverwriteElsewhere(bytes: seq<Byte>, slot: nat, data: seq<Byte>, other: nat)
    requires |bytes| == BUFFER_SIZE && Addressable(slot) && Addressable(other) && other != slot && |data| <= Room(slot)
    ensures SameBytes(bytes, Overwrite(bytes, ROW_SIZE * slot, data), other)
  {
    NextSlotIsNext(slot);
    NextSlotIsNext(other);
  }

  /** A call leaves every other slot alone, in memory and in whatever of it had reached flash. */
  lemma OthersKeepTheirs(s: System, slot: nat, e: Entry, writes: nat, other: nat)
    requires Consistent(s) && Addressable(slot) && Addressable(other) && other != slot && |e.data| <= Room(slot)
    ensures var ram := PutAt(s.ram, slot, e);
      && WellFormed(ram) && CredentialAt(ram, other) == CredentialAt(s.ram, other)
      && var loaded := Load(AfterWrites(s.flash, ram, writes));
      && WellFormed(loaded) && CredentialAt(loaded, other) == CredentialAt(s.ram, other)
  {
    var ram := PutAt(s.ram, slot, e);
    PutKeepsWellFormed(s.ram, slot, e);
    OverwriteElsewhere(s.ram.bytes, slot, e.data, other);
    SameRoom(s.ram, ram, other);
    var loaded := Load(AfterWrites(s.flash, ram, writes));
    AfterWritesWellFormed(s.flash, ram);
    SameRoom(s.ram, loaded, other);
  }

  lemma SoundNext(s: System, op: Operation)
    requires Sound(s) && Inside(op)
    ensures Sound(Next(s, op))
  {
    if !op.Reboot? && IsKey(op.e.ctype, op.e.index) {
      var ram := PutAt(s.ram, Slot(op.e.ctype, op.e.index), op.e);
      PutKeepsWellFormed(s.ram, Slot(op.e.ctype, op.e.index), op.e);
      AfterWritesWellFormed(s.flash, ram);
    }
  }

  lemma ConsistentNext(s: System, op: Operation)
    requires Consistent(s) && Fits(op)
    ensures Inside(op) && Consistent(Next(s, op))
  {
    FitsIsInside(op);
    SoundNext(s, op);
  }

  /** One operation leaves every credential but its own exactly as it was: completed, rebooted, or cut
      off by a power loss after any number of flash writes. */
  lemma {:induction false} OthersUntouched(s: System, op: Operation, ctype: UInt8, index: UInt16)
    requires Consistent(s) && Fits(op)
    requires op.Reboot? || (ctype, index) != (op.e.ctype, op.e.index)
    ensures Inside(op) && Consistent(Next(s, op)) && Get(Next(s, op).ram, ctype, index) == Get(s.ram, ctype, index)
  {
    ConsistentNext(s, op);
    SlotsAreDistinct(ctype, index, ctype, index);
    if !op.Reboot? && IsKey(op.e.ctype, op.e.index) && IsKey(ctype, index) {
      SlotsAreDistinct(ctype, index, op.e.ctype, op.e.index);
      OthersKeepTheirs(s, Slot(op.e.ctype, op.e.index), op.e, if op.Set? then 2 else op.writes, Slot(ctype, index));
    }
  }

  /** After a power loss the credential being set is the old one, the new one, or, between the two
      writes, the new record over the bytes that were there. */
  lemma PowerLoss(s: System, e: Entry, writes: nat)
    requires Sound(s) && CopyStaysInside(e) && IsKey(e.ctype, e.index)
    ensures var before := Get(s.ram, e.ctype, e.index);
      var after := Next(s, SetThenPowerLoss(e, writes));
      && WellFormed(after.ram)
      && Get(after.ram, e.ctype, e.index) ==
         if writes == 0 then before
         else if writes >= 2 || e.status.Available? then Found(Requested(e))
         else Found(Credential(e.ctype, s.ram.bytes[ROW_SIZE * Slot(e.ctype, e.index)..][..|e.data|], e.creator, e.modifier))
  {
    var slot := Slot(e.ctype, e.index);
    SoundNext(s, SetThenPowerLoss(e, writes));
    PutReads(s.ram, slot, e);
    var after := Next(s, SetThenPowerLoss(e, writes)).ram;
    if writes == 0 {
      assert after == s.ram;
    } else if writes == 1 {
      assert after == CredentialRam(PutAt(s.ram, slot, e).infos, s.ram.bytes);
      assert Bytes(after, Span(slot, |e.data|)) == s.ram.bytes[ROW_SIZE * slot..][..|e.data|];
    } else {
      assert after == PutAt(s.ram, slot, e);
    }
  }

  // ---- The class takes these steps

  lemma KeyHasSlot(ctype: UInt8, index: UInt16)
    ensures SlotOf(ctype, index).Some? <==> IsKey(ctype, index)
  {
  }

  lemma SetIsNext(s: System, e: Entry, ram: CredentialRam)
    requires WellFormed(s.ram) && CopyStaysInside(e) && IsKey(e.ctype, e.index)
    requires ram == PutAt(s.ram, Slot(e.ctype, e.index), e)
    ensures Next(s, Set(e)) == System(ram, AfterWrites(s.flash, ram, 2))
    ensures forall n: nat :: Next(s, SetThenPowerLoss(e, n)).flash == AfterWrites(s.flash, ram, n)
  {
  }

  lemma ImageOf(images: seq<CredentialFlash>, flash: CredentialFlash, ram: CredentialRam, n: nat)
    requires images != [] && images[|images| - 1] == flash && n <= 2
    ensures (images + [AfterWrites(flash, ram, 1), AfterWrites(flash, ram, 2)])[|images| - 1 + n] == AfterWrites(flash, ram, n)
  {
  }

  /** A call of the store is one operation, and the contents that flash goes through during the call are
      exactly those a power loss can leave behind. */
  method SetInStore(store: Credentials, e: Entry) returns (ok: bool)
    requires store.Valid() && CopyStaysInside(e)
    modifies store, store.mLockCredentials, store.mCredentialData
    ensures store.Valid() && (ok <==> IsKey(e.ctype, e.index))
    ensures System(store.Ram(), store.flash) == Next(old(System(store.Ram(), store.flash)), Set(e))
    ensures ok ==> |store.images| == |old(store.images)| + 2
    ensures ok ==> forall n :: 0 <= n <= 2 ==>
              store.images[|old(store.images)| - 1 + n]
              == Next(old(System(store.Ram(), store.flash)), SetThenPowerLoss(e, n)).flash
  {
    ghost var before := System(store.Ram(), store.flash);
    ghost var images := store.images;
    KeyHasSlot(e.ctype, e.index);
    ok := store.SetCredential(e);
    if ok {
      ghost var ram := store.Ram();
      SetIsNext(before, e, ram);
      forall n | 0 <= n <= 2
        ensures store.images[|images| - 1 + n] == AfterWrites(before.flash, ram, n)
      {
        ImageOf(images, before.flash, ram, n);
      }
    }
  }

  // ---- Runs

  ghost predicate AllInside(ops: seq<Operation>) {
    forall i :: 0 <= i < |ops| ==> Inside(ops[i])
  }

  ghost predicate AllFit(ops: seq<Operation>) {
    forall i :: 0 <= i < |ops| ==> Fits(ops[i])
  }

  lemma AllFitIsInside(ops: seq<Operation>)
    requires AllFit(ops)
    ensures AllInside(ops)
  {
    forall i | 0 <= i < |ops|
      ensures Inside(ops[i])
    {
      FitsIsInside(ops[i]);
    }
  }

  function Run(s: System, ops: seq<Operation>): System
    requires Sound(s) && AllInside(ops)
    decreases |ops|
  {
    if ops == [] then s
    else SoundNext(s, ops[0]); Run(Next(s, ops[0]), ops[1..])
  }

  lemma FactoryNewIsConsistent()
    ensures Consistent(FACTORY_NEW)
  {
  }

  lemma {:induction false} RunIsSound(s: System, ops: seq<Operation>)
    requires Sound(s) && AllInside(ops)
    ensures Sound(Run(s, ops))
    decreases |ops|
  {
    if ops == [] {
    } else {
      SoundNext(s, ops[0]);
      RunIsSound(Next(s, ops[0]), ops[1..]);
    }
  }

  lemma {:induction false} RunExtends(s: System, ops: seq<Operation>, op: Operation)
    requires Sound(s) && AllInside(ops) && Inside(op)
    ensures AllInside(ops + [op]) && Sound(Run(s, ops)) && Run(s, ops + [op]) == Next(Run(s, ops), op)
    decreases |ops|
  {
    if ops == [] {
      assert ops + [op] == [op] && [op][1..] == [];
    } else {
      SoundNext(s, ops[0]);
      RunExtends(Next(s, ops[0]), ops[1..], op);
      assert (ops + [op])[0] == ops[0] && (ops + [op])[1..] == ops[1..] + [op];
    }
  }

  lemma {:induction false} RunIsConsistent(s: System, ops: seq<Operation>)
    requires Consistent(s) && AllFit(ops)
    ensures AllInside(ops) && Consistent(Run(s, ops))
    decreases |ops|
  {
    AllFitIsInside(ops);
    if ops == [] {
    } else {
      ConsistentNext(s, ops[0]);
      RunIsConsistent(Next(s, ops[0]), ops[1..]);
    }
  }

  /** A credential that no operation names keeps its value through any run of calls, reboots and power
      losses. */
  lemma {:induction false} UnnamedUntouched(s: System, ops: seq<Operation>, ctype: UInt8, index: UInt16)
    requires Consistent(s) && AllFit(ops)
    requires forall i :: 0 <= i < |ops| ==> ops[i].Reboot? || (ops[i].e.ctype, ops[i].e.index) != (ctype, index)
    ensures AllInside(ops) && Consistent(Run(s, ops)) && Get(Run(s, ops).ram, ctype, index) == Get(s.ram, ctype, index)
    decreases |ops|
  {
    AllFitIsInside(ops);
    if ops == [] {
    } else {
      OthersUntouched(s, ops[0], ctype, index);
      UnnamedUntouched(Next(s, ops[0]), ops[1..], ctype, index);
    }
  }

  // ---- Every byte of the buffer

  /** The byte that the last call to reach this place wrote: one that completed, or that lost power after both of its
      writes. */
  function LastByte(ops: seq<Operation>, place: nat): Byte
    decreases |ops|
  {
    if ops == [] then 0 else
    var before, last := LastByte(ops[..|ops| - 1], place), ops[|ops| - 1];
    if last.Reboot? || !IsKey(last.e.ctype, last.e.index) || (last.SetThenPowerLoss? && last.writes < 2) then before
    else
      var row := 20 * Slot(last.e.ctype, last.e.index);
      if row <= place < row + |last.e.data| then last.e.data[place - row] else before
  }

  lemma ByteOfStep(s: System, op: Operation, place: nat)
    requires Sound(s) && Inside(op) && place < BUFFER_SIZE
    ensures WellFormed(Next(s, op).ram)
    ensures Next(s, op).ram.bytes[place] ==
            if op.Reboot? || !IsKey(op.e.ctype, op.e.index) || (op.SetThenPowerLoss? && op.writes < 2) then s.ram.bytes[place]
            else
              var row := 20 * Slot(op.e.ctype, op.e.index);
              if row <= place < row + |op.e.data| then op.e.data[place - row] else s.ram.bytes[place]
  {
    SoundNext(s, op);
  }

  /** Over any run of calls, also with data beyond their rows, reboots and power losses: a call writes the bytes of its
      data, in memory and in flash, and leaves all others, also those behind a shorter value in the same row. */
  lemma {:induction false} BytesOverRuns(ops: seq<Operation>, place: nat)
    requires AllInside(ops) && place < BUFFER_SIZE
    ensures Sound(FACTORY_NEW) && WellFormed(Run(FACTORY_NEW, ops).ram) && Load(Run(FACTORY_NEW, ops).flash) == Run(FACTORY_NEW, ops).ram
    ensures Run(FACTORY_NEW, ops).ram.bytes[place] == LastByte(ops, place)
    decreases |ops|
  {
    FactoryNewIsConsistent();
    if ops == [] {
    } else {
      var front, last := ops[..|ops| - 1], ops[|ops| - 1];
      BytesOverRuns(front, place);
      RunExtends(FACTORY_NEW, front, last);
      assert ops == front + [last];
      ByteOfStep(Run(FACTORY_NEW, front), last, place);
      SoundNext(Run(FACTORY_NEW, front), last);
    }
  }

  // ---- The map it refines

  type Key = (UInt8, UInt16)

  function MapNext(m: map<Key, Credential>, op: Operation): map<Key, Credential> {
    if op.Set? && IsKey(op.e.ctype, op.e.index) then m[(op.e.ctype, op.e.index) := Requested(op.e)] else m
  }

  function MapRun(m: map<Key, Credential>, ops: seq<Operation>): map<Key, Credential>
    decreases |ops|
  {
    if ops == [] then m else MapRun(MapNext(m, ops[0]), ops[1..])
  }

  function MapGet(m: map<Key, Credential>, ctype: UInt8, index: UInt16): Lookup {
    if !IsKey(ctype, index) then Rejected
    else Found(if (ctype, index) in m then m[(ctype, index)] else Unoccupied)
  }

  ghost predicate Represents(s: System, m: map<Key, Credential>)
    requires WellFormed(s.ram)
  {
    forall ctype: UInt8, index: UInt16 :: Get(s.ram, ctype, index) == MapGet(m, ctype, index)
  }

  lemma RepresentsNext(s: System, m: map<Key, Credential>, op: Operation)
    requires Consistent(s) && Represents(s, m) && Fits(op) && !op.SetThenPowerLoss?
    ensures Inside(op) && Consistent(Next(s, op)) && Represents(Next(s, op), MapNext(m, op))
  {
    ConsistentNext(s, op);
    forall ctype: UInt8, index: UInt16
      ensures Get(Next(s, op).ram, ctype, index) == MapGet(MapNext(m, op), ctype, index)
    {
      if op.Reboot? || (ctype, index) != (op.e.ctype, op.e.index) {
        OthersUntouched(s, op, ctype, index);
      } else {
        SlotsAreDistinct(ctype, index, ctype, index);
        if IsKey(ctype, index) {
          PutReads(s.ram, Slot(ctype, index), op.e);
        }
      }
    }
  }

  lemma {:induction false} RepresentsRun(s: System, m: map<Key, Credential>, ops: seq<Operation>)
    requires Consistent(s) && Represents(s, m) && AllFit(ops)
    requires forall i :: 0 <= i < |ops| ==> !ops[i].SetThenPowerLoss?
    ensures AllInside(ops) && Consistent(Run(s, ops)) && Represents(Run(s, ops), MapRun(m, ops))
    decreases |ops|
  {
    AllFitIsInside(ops);
    if ops == [] {
    } else {
      RepresentsNext(s, m, ops[0]);
      RepresentsRun(Next(s, ops[0]), MapNext(m, ops[0]), ops[1..]);
    }
  }

  /** From factory-new on, over any sequence of calls and reboots, the store answers every key exactly
      as a map from (type, external index) does, and rejects everything that is not a key. */
  lemma {:induction false} StoreIsAMap(ops: seq<Operation>)
    requires AllFit(ops) && forall i :: 0 <= i < |ops| ==> !ops[i].SetThenPowerLoss?
    ensures Sound(FACTORY_NEW) && AllInside(ops) && WellFormed(Run(FACTORY_NEW, ops).ram)
    ensures forall ctype: UInt8, index: UInt16 ::
              Get(Run(FACTORY_NEW, ops).ram, ctype, index) == MapGet(MapRun(map[], ops), ctype, index)
  {
    FactoryNewIsConsistent();
    forall ctype: UInt8, index: UInt16
      ensures Get(FACTORY_NEW.ram, ctype, index) == MapGet(map[], ctype, index)
    {
      SlotsAreDistinct(ctype, index, ctype, index);
    }
    RepresentsRun(FACTORY_NEW, map[], ops);
  }

  // ---- PIN check

  /** The loop over all hundred PIN records accepts exactly the data of the ten credentials a caller can
      name, in every state reached from factory-new by calls, reboots and power losses, also when data has
      run over from one row into others. */
  lemma PinCheckIsAboutCredentials(ops: seq<Operation>, pin: seq<Byte>)
    requires AllInside(ops)
    ensures Sound(FACTORY_NEW) && Sound(Run(FACTORY_NEW, ops))
    ensures var ram := Run(FACTORY_NEW, ops).ram;
      PinInTable(ram, pin) <==> PinOfACredential(ram, pin)
  {
    FactoryNewIsConsistent();
    RunIsSound(FACTORY_NEW, ops);
    PinOfSound(Run(FACTORY_NEW, ops), pin);
  }

  ghost predicate PinOfACredential(ram: CredentialRam, pin: seq<Byte>)
    requires WellFormed(ram)
  {
    exists index: UInt16 :: 1 <= index <= 10 && IsFoundWith(Get(ram, PIN, index), pin)
  }

  predicate IsFoundWith(lookup: Lookup, data: seq<Byte>) {
    lookup.Found? && lookup.credential.Credential? && lookup.credential.data == data
  }

  lemma PinOfSound(s: System, pin: seq<Byte>)
    requires Sound(s)
    ensures PinInTable(s.ram, pin) <==> PinOfACredential(s.ram, pin)
  {
    if PinInTable(s.ram, pin) {
      var slot :| MAX_CREDENTIALS * PIN <= slot < MAX_CREDENTIALS * (PIN + 1) && HoldsPin(s.ram, slot, pin);
      var index: UInt16 := slot - MAX_CREDENTIALS + 1;
      assert SlotOf(PIN, index) == Some(slot);
      assert IsFoundWith(Get(s.ram, PIN, index), pin);
    }
    if PinOfACredential(s.ram, pin) {
      var index: UInt16 :| 1 <= index <= 10 && IsFoundWith(Get(s.ram, PIN, index), pin);
      assert HoldsPin(s.ram, MAX_CREDENTIALS + index - 1, pin);
    }
  }

  // ---- The class under any sequence of calls

  /** The store driven through any sequence of calls and reboots ends as the run says, so what is proved of
      runs holds of it. */
  method PerformAll(store: Credentials, ops: seq<Operation>) returns (after: Credentials)
    requires store.Valid() && Sound(System(store.Ram(), store.flash)) && AllInside(ops)
    requires forall i :: 0 <= i < |ops| ==> !ops[i].SetThenPowerLoss?
    modifies store, store.mLockCredentials, store.mCredentialData
    ensures after.Valid()
    ensures System(after.Ram(), after.flash) == Run(old(System(store.Ram(), store.flash)), ops)
  {
    after := store;
    ghost var begin := System(store.Ram(), store.flash);
    assert ops[0..] == ops;
    for i := 0 to |ops|
      invariant after.Valid() && Sound(System(after.Ram(), after.flash))
      invariant after == store || (fresh(after) && fresh(after.mLockCredentials) && fresh(after.mCredentialData))
      invariant AllInside(ops[i..]) && Run(begin, ops) == Run(System(after.Ram(), after.flash), ops[i..])
    {
      SoundNext(System(after.Ram(), after.flash), ops[i]);
      assert ops[i..][0] == ops[i] && ops[i..][1..] == ops[i + 1..];
      if ops[i].Reboot? {
        after := new Credentials.ReadConfigValues(after.flash);
      } else {
        var ok := SetInStore(after, ops[i].e);
      }
    }
  }

  // ---- How much data a credential may have

  ghost predicate OthersSame(s: System, e: Entry)
    requires Sound(s) && CopyStaysInside(e)
  {
    && WellFormed(Next(s, Set(e)).ram)
    && forall ctype: UInt8, index: UInt16 :: (ctype, index) != (e.ctype, e.index) ==>
         Get(Next(s, Set(e)).ram, ctype, index) == Get(s.ram, ctype, index)
  }

  /** Setting this credential changes no other one, wherever calls whose data fits, reboots and power
      losses have led from factory-new. */
  ghost predicate LeavesOthersAlone(e: Entry)
    requires CopyStaysInside(e)
  {
    forall ops :: AllFit(ops) ==> OthersSameAfter(ops, e)
  }

  ghost predicate OthersSameAfter(ops: seq<Operation>, e: Entry)
    requires AllFit(ops) && CopyStaysInside(e)
  {
    FactoryNewIsConsistent();
    RunIsConsistent(FACTORY_NEW, ops);
    OthersSame(Run(FACTORY_NEW, ops), e)
  }

  /** The call that sets the credential in an addressable slot to one byte. */
  function OneByte(slot: nat, b: Byte): (e: Entry)
    requires Addressable(slot)
    ensures IsKey(e.ctype, e.index) && Slot(e.ctype, e.index) == slot
  {
    if slot == 0 then Entry(PROGRAMMING_PIN, 0, Occupied, 0, 0, [b])
    else Entry(slot / MAX_CREDENTIALS, slot % MAX_CREDENTIALS + 1, Occupied, 0, 0, [b])
  }

  lemma OverrunReads(ram: CredentialRam, slot: nat, e: Entry, next: nat)
    requires WellFormed(ram) && slot < next < NUM_SLOTS && ROW_SIZE * slot + |e.data| <= BUFFER_SIZE
    requires ROW_SIZE * (next - slot) < |e.data| && ram.infos[next].status.Occupied? && ram.infos[next].data == Span(next, 1)
    ensures WellFormed(PutAt(ram, slot, e))
    ensures var read := CredentialAt(PutAt(ram, slot, e), next);
      read.Credential? && read.data == [e.data[ROW_SIZE * (next - slot)]]
  {
    PutKeepsWellFormed(ram, slot, e);
    assert PutAt(ram, slot, e).bytes[ROW_SIZE * next] == e.data[ROW_SIZE * (next - slot)];
  }

  lemma SetFirst(e: Entry)
    requires IsKey(e.ctype, e.index) && Fits(Set(e))
    ensures AllFit([Set(e)]) && Sound(FACTORY_NEW) && Inside(Set(e)) && AllInside([Set(e)])
    ensures Run(FACTORY_NEW, [Set(e)]) == Next(FACTORY_NEW, Set(e)) && Sound(Next(FACTORY_NEW, Set(e)))
    ensures Get(Next(FACTORY_NEW, Set(e)).ram, e.ctype, e.index) == Found(Requested(e))
  {
    ConsistentNext(FACTORY_NEW, Set(e));
    assert [Set(e)][1..] == [];
    PutReads(FACTORY_NEW.ram, Slot(e.ctype, e.index), e);
  }

  /** Data that outgrows its room overwrites the first byte of the next credential: set that one first,
      to another byte, then this one. */
  lemma NeighbourChanges(e: Entry) returns (neighbour: Entry)
    requires IsKey(e.ctype, e.index) && CopyStaysInside(e) && |e.data| > Room(Slot(e.ctype, e.index))
    ensures AllFit([Set(neighbour)]) && !OthersSameAfter([Set(neighbour)], e)
  {
    var slot := Slot(e.ctype, e.index);
    var next, room := NextSlot(slot), Room(slot);
    NextSlotIsNext(slot);
    neighbour := OneByte(next, if e.data[room] == 0 then 1 else 0);
    SetFirst(neighbour);
    var s := Next(FACTORY_NEW, Set(neighbour));
    OverrunReads(s.ram, slot, e, next);
    assert Get(Next(s, Set(e)).ram, neighbour.ctype, neighbour.index) == Found(CredentialAt(PutAt(s.ram, slot, e), next));
  }

  /** The exact bound: setting a credential leaves every other one alone exactly if its data ends before
      the row of the next key. That is 20 bytes, except for the last credential of each type and for the
      programming PIN, whose next rows no key names. */
  lemma RoomIsExact(e: Entry)
    requires IsKey(e.ctype, e.index) && ROW_SIZE * Slot(e.ctype, e.index) + |e.data| <= BUFFER_SIZE
    ensures LeavesOthersAlone(e) <==> |e.data| <= Room(Slot(e.ctype, e.index))
    ensures Room(Slot(e.ctype, e.index)) ==
            if e.ctype == PROGRAMMING_PIN then 2000 else if e.index < MAX_CREDENTIALS_PER_USER then 20 else 1820
  {
    if |e.data| <= Room(Slot(e.ctype, e.index)) {
      forall ops | AllFit(ops)
        ensures OthersSameAfter(ops, e)
      {
        FactoryNewIsConsistent();
        RunIsConsistent(FACTORY_NEW, ops);
        ConsistentNext(Run(FACTORY_NEW, ops), Set(e));
        forall ctype: UInt8, index: UInt16 | (ctype, index) != (e.ctype, e.index)
          ensures Get(Next(Run(FACTORY_NEW, ops), Set(e)).ram, ctype, index) == Get(Run(FACTORY_NEW, ops).ram, ctype, index)
        {
          OthersUntouched(Run(FACTORY_NEW, ops), Set(e), ctype, index);
        }
      }
    } else {
      var neighbour := NeighbourChanges(e);
    }
  }
}
