/** The credential half of the lock manager's store: a table of records and one flat byte buffer in
    which every record owns a row, both persisted whole. It refines a finite map from credential type
    and external index to credential, survives reboots, and confines the damage of a power loss. */
module CredentialStore {
  import opened DoorLockTypes

  const NUM_CREDENTIAL_TYPES := 6
  const ROW_SIZE := 20
  const NUM_SLOTS := 600
  const BUFFER_SIZE := 12000

  const PROGRAMMING_PIN := 0
  const PIN := 1

  datatype CredentialStatus = Available | Occupied

  /** A byte span into the buffer: the row it points at and its length. */
  datatype Span = Span(row: nat, len: nat)

  datatype CredentialInfo =
    CredentialInfo(status: CredentialStatus, ctype: UInt8, data: Span, createdBy: UInt8, lastModifiedBy: UInt8)

  datatype CredentialRam = CredentialRam(infos: seq<CredentialInfo>, bytes: seq<Byte>)

  /** What a reader of the store sees in one place. */
  datatype Credential =
    | Unoccupied
    | Credential(ctype: UInt8, data: seq<Byte>, createdBy: UInt8, lastModifiedBy: UInt8)

  datatype Lookup = Rejected | Found(credential: Credential)

  // ---- Memory

  const EMPTY_INFO := CredentialInfo(Available, 0, Span(0, 0), 0, 0)

  function FreshRam(): CredentialRam {
    CredentialRam(seq(NUM_SLOTS, _ => EMPTY_INFO), seq(BUFFER_SIZE, _ => 0))
  }

  /** Spans point at the row of their own record and stay inside the buffer. */
  ghost predicate WellFormed(ram: CredentialRam) {
    && |ram.infos| == NUM_SLOTS && |ram.bytes| == BUFFER_SIZE
    && forall slot :: 0 <= slot < NUM_SLOTS ==> SpanAtHome(ram.infos[slot].data, slot)
  }

  predicate SpanAtHome(span: Span, slot: nat) {
    (span.len > 0 ==> span.row == slot) && ROW_SIZE * span.row + span.len <= BUFFER_SIZE
  }

  function Bytes(ram: CredentialRam, span: Span): seq<Byte>
    requires ROW_SIZE * span.row + span.len <= |ram.bytes|
  {
    ram.bytes[ROW_SIZE * span.row..ROW_SIZE * span.row + span.len]
  }

  function CredentialAt(ram: CredentialRam, slot: nat): Credential
    requires WellFormed(ram) && slot < NUM_SLOTS
  {
    var info := ram.infos[slot];
    if info.status.Available? then Unoccupied
    else Credential(info.ctype, Bytes(ram, info.data), info.createdBy, info.lastModifiedBy)
  }

  // ---- Where a credential lives

  /** The source decrements a 16-bit index before it checks it. */
  function Decremented(index: UInt16): UInt16 {
    if index == 0 then 0xFFFF else index - 1
  }

  function SlotOf(ctype: UInt8, index: UInt16): Option<nat> {
    if ctype >= NUM_CREDENTIAL_TYPES then None
    else if ctype == PROGRAMMING_PIN then
      if index == 0 then Some(0) else None
    else
      var position := Decremented(index);
      if position < MAX_CREDENTIALS_PER_USER then Some(MAX_CREDENTIALS * ctype + position) else None
  }

  /** The keys a credential can have: index 0 for the programming PIN alone, 1 to 10 for the others. */
  predicate IsKey(ctype: UInt8, index: UInt16) {
    if ctype == PROGRAMMING_PIN then index == 0
    else ctype < NUM_CREDENTIAL_TYPES && 1 <= index <= MAX_CREDENTIALS_PER_USER
  }

  /** Keys, and only keys, have a slot, each its own, so that rows of distinct keys never overlap. */
  lemma SlotsAreDistinct(ctype: UInt8, index: UInt16, ctype': UInt8, index': UInt16)
    ensures SlotOf(ctype, index).Some? <==> IsKey(ctype, index)
    ensures IsKey(ctype, index) <==> (ctype == 0 && index == 0) || (1 <= ctype <= 5 && 1 <= index <= 10)
    ensures IsKey(ctype, index) ==> SlotOf(ctype, index).value == if ctype == 0 then 0 else 100 * ctype + index - 1
    ensures IsKey(ctype, index) ==> SlotOf(ctype, index).value < NUM_SLOTS
    ensures IsKey(ctype, index) && IsKey(ctype', index') && (ctype, index) != (ctype', index') ==>
              var row, row' := ROW_SIZE * SlotOf(ctype, index).value, ROW_SIZE * SlotOf(ctype', index').value;
              row + ROW_SIZE <= row' || row' + ROW_SIZE <= row
  {
  }

  // ---- Operations on memory and flash

  /** What a call to set a credential is given. */
  datatype Entry = Entry(ctype: UInt8, index: UInt16, status: CredentialStatus, creator: UInt8, modifier: UInt8, data: seq<Byte>)

  function PutAt(ram: CredentialRam, slot: nat, e: Entry): CredentialRam
    requires slot < |ram.infos| && ROW_SIZE * slot + |e.data| <= |ram.bytes|
  {
    CredentialRam(
      ram.infos[slot := CredentialInfo(e.status, e.ctype, Span(slot, |e.data|), e.creator, e.modifier)],
      Overwrite(ram.bytes, ROW_SIZE * slot, e.data))
  }

  datatype CredentialFlash = CredentialFlash(infos: Option<seq<CredentialInfo>>, bytes: Option<seq<Byte>>)

  const EMPTY_FLASH := CredentialFlash(None, None)

  /** The memory after a boot: zeros where flash has no value. */
  function Load(flash: CredentialFlash): CredentialRam {
    CredentialRam(if flash.infos.Some? then flash.infos.value else FreshRam().infos,
                  if flash.bytes.Some? then flash.bytes.value else FreshRam().bytes)
  }

  /** Flash after the first `n` of the two writes with which a call saves `ram`. */
  function AfterWrites(flash: CredentialFlash, ram: CredentialRam, n: nat): CredentialFlash {
    CredentialFlash(if n >= 1 then Some(ram.infos) else flash.infos, if n >= 2 then Some(ram.bytes) else flash.bytes)
  }

  ghost predicate FlashWellFormed(flash: CredentialFlash) {
    WellFormed(Load(flash))
  }

  /** Bounds that keep the copied bytes inside the buffer. */
  predicate CopyStaysInside(e: Entry) {
    var slot := SlotOf(e.ctype, e.index);
    slot.Some? ==> ROW_SIZE * slot.value + |e.data| <= BUFFER_SIZE
  }

  class Credentials {
    const mLockCredentials: array<CredentialInfo>
    const mCredentialData: array<Byte>
    var flash: CredentialFlash
    /** Every content flash has had since the last boot, the present one last. */
    ghost var images: seq<CredentialFlash>

    ghost predicate Valid()
      reads this, mLockCredentials, mCredentialData
    {
      && WellFormed(Ram()) && FlashWellFormed(flash)
      && images != [] && images[|images| - 1] == flash
    }

    ghost function Ram(): CredentialRam
      reads mLockCredentials, mCredentialData
    {
      CredentialRam(mLockCredentials[..], mCredentialData[..])
    }

    /** Boots from flash: zeroed memory, then the two reads of ReadConfigValues. */
    constructor ReadConfigValues(flash: CredentialFlash)
      requires FlashWellFormed(flash)
      ensures Valid() && fresh(mLockCredentials) && fresh(mCredentialData)
      ensures Ram() == Load(flash) && this.flash == flash && images == [flash]
    {
      mLockCredentials := new CredentialInfo[NUM_SLOTS](_ => EMPTY_INFO);
      mCredentialData := new Byte[BUFFER_SIZE](_ => 0);
      this.flash := flash;
      images := [flash];
      new;
      assert Ram() == FreshRam();
      if flash.infos.Some? {
        forall i | 0 <= i < NUM_SLOTS {
          mLockCredentials[i] := flash.infos.value[i];
        }
        assert mLockCredentials[..] == flash.infos.value;
      }
      if flash.bytes.Some? {
        forall i | 0 <= i < BUFFER_SIZE {
          mCredentialData[i] := flash.bytes.value[i];
        }
        assert mCredentialData[..] == flash.bytes.value;
      }
    }

    method WriteConfig(newFlash: CredentialFlash)
      modifies this`flash, this`images
      ensures flash == newFlash && images == old(images) + [newFlash]
    {
      flash := newFlash;
      images := images + [newFlash];
    }

    method CopyBytes(offset: nat, data: seq<Byte>)
      requires offset + |data| <= mCredentialData.Length
      modifies mCredentialData
      ensures mCredentialData[..] == Overwrite(old(mCredentialData[..]), offset, data)
    {
      for i := 0 to |data|
        invariant forall j :: 0 <= j < mCredentialData.Length ==>
                    mCredentialData[j] == if offset <= j < offset + i then data[j - offset] else old(mCredentialData[j])
      {
        mCredentialData[offset + i] := data[i];
      }
      assert |mCredentialData[..]| == |Overwrite(old(mCredentialData[..]), offset, data)|;
    }

    method GetCredential(index: UInt16, ctype: UInt8) returns (ok: bool, credential: Credential)
      requires Valid()
      ensures (if ok then Found(credential) else Rejected) == Get(Ram(), ctype, index)
    {
      credential := Unoccupied;
      var slot := SlotOf(ctype, index);
      if slot.None? {
        return false, credential;
      }
      var info := mLockCredentials[slot.value];
      assert info == Ram().infos[slot.value];
      if !info.status.Available? {
        var row := ROW_SIZE * info.data.row;
        credential := Credential(info.ctype, mCredentialData[row..row + info.data.len], info.createdBy, info.lastModifiedBy);
      }
      return true, credential;
    }

    method SetCredential(e: Entry) returns (ok: bool)
      requires Valid() && CopyStaysInside(e)
      modifies this`flash, this`images, mLockCredentials, mCredentialData
      ensures Valid()
      ensures ok <==> IsKey(e.ctype, e.index)
      ensures ok ==> Ram() == PutAt(old(Ram()), SlotOf(e.ctype, e.index).value, e)
      ensures ok ==> images == old(images) + [AfterWrites(old(flash), Ram(), 1), AfterWrites(old(flash), Ram(), 2)]
      ensures !ok ==> Ram() == old(Ram()) && images == old(images) && flash == old(flash)
    {
      SlotsAreDistinct(e.ctype, e.index, e.ctype, e.index);
      var slot := SlotOf(e.ctype, e.index);
      if slot.None? {
        return false;
      }
      ghost var put := PutAt(Ram(), slot.value, e);
      PutKeepsWellFormed(Ram(), slot.value, e);
      mLockCredentials[slot.value] :=
        CredentialInfo(e.status, e.ctype, Span(slot.value, |e.data|), e.creator, e.modifier);
      CopyBytes(ROW_SIZE * slot.value, e.data);
      assert Ram() == put;
      AfterWritesWellFormed(flash, put);
      WriteConfig(flash.(infos := Some(mLockCredentials[..])));
      WriteConfig(flash.(bytes := Some(mCredentialData[..])));
      return true;
    }

    /** The loop of setLockState over all hundred PIN records. */
    method MatchPin(pin: seq<Byte>) returns (found: bool)
      requires Valid()
      ensures found <==> PinInTable(Ram(), pin)
    {
      for slot := MAX_CREDENTIALS * PIN to MAX_CREDENTIALS * (PIN + 1)
        invariant forall s :: MAX_CREDENTIALS * PIN <= s < slot ==> !HoldsPin(Ram(), s, pin)
      {
        var info := mLockCredentials[slot];
        assert info == Ram().infos[slot];
        if info.status.Available? {
          continue;
        }
        var row := ROW_SIZE * info.data.row;
        if mCredentialData[row..row + info.data.len] == pin {
          assert HoldsPin(Ram(), slot, pin);
          return true;
        }
      }
      return false;
    }
  }

  // ---- Reading

  function Get(ram: CredentialRam, ctype: UInt8, index: UInt16): Lookup
    requires WellFormed(ram)
  {
    var slot := SlotOf(ctype, index);
    if slot.None? then Rejected else Found(CredentialAt(ram, slot.value))
  }

  ghost predicate HoldsPin(ram: CredentialRam, slot: nat, pin: seq<Byte>)
    requires WellFormed(ram) && slot < NUM_SLOTS
  {
    ram.infos[slot].status.Occupied? && Bytes(ram, ram.infos[slot].data) == pin
  }

  ghost predicate PinInTable(ram: CredentialRam, pin: seq<Byte>)
    requires WellFormed(ram)
  {
    exists slot :: MAX_CREDENTIALS * PIN <= slot < MAX_CREDENTIALS * (PIN + 1) && HoldsPin(ram, slot, pin)
  }

  lemma PutKeepsWellFormed(ram: CredentialRam, slot: nat, e: Entry)
    requires WellFormed(ram) && slot < NUM_SLOTS && ROW_SIZE * slot + |e.data| <= BUFFER_SIZE
    ensures WellFormed(PutAt(ram, slot, e))
  {
  }

  lemma AfterWritesWellFormed(flash: CredentialFlash, ram: CredentialRam)
    requires FlashWellFormed(flash) && WellFormed(ram)
    ensures forall n: nat :: FlashWellFormed(AfterWrites(flash, ram, n))
  {
  }
}
