/** The three schedule tables of the lock manager (weekday, yearday, holiday), one class for their
    common shape. A record is a status byte, padding and a schedule; the table is saved as a prefix whose
    length is counted in schedules, not in records. This module proves what that prefix brings back. */
module ScheduleStore {
  import opened DoorLockTypes

  const SCHEDULES_PER_ROW := 10

  /** Sizes in bytes: everything before the schedule (status and padding), and the schedule. */
  datatype Layout = Layout(header: nat, schedule: nat) {
    predicate Valid() {
      header > 0 && schedule > 0
    }

    function Record(): nat {
      header + schedule
    }
  }

  datatype ScheduleResult = Failure | NotFound | Success(schedule: seq<Byte>)

  // ---- Offsets

  /** The size of `k` pieces of `size` bytes, so also the offset of piece `k`. */
  function Extent(k: nat, size: nat): nat {
    if k == 0 then 0 else Extent(k - 1, size) + size
  }

  lemma {:induction false} ExtentIsProduct(k: nat, size: nat)
    ensures Extent(k, size) == k * size
  {
    if k == 0 {
    } else {
      ExtentIsProduct(k - 1, size);
      assert k * size == (k - 1) * size + size;
    }
  }

  lemma {:induction false} ExtentGrows(k: nat, n: nat, size: nat)
    requires k <= n
    ensures Extent(k, size) <= Extent(n, size)
    decreases n - k
  {
    if k == n {
    } else {
      ExtentGrows(k + 1, n, size);
    }
  }

  // ---- The table as bytes

  ghost predicate Holds(layout: Layout, n: nat, bytes: seq<Byte>) {
    layout.Valid() && |bytes| == Extent(n, layout.Record())
  }

  function RecordAt(layout: Layout, n: nat, bytes: seq<Byte>, k: nat): (record: seq<Byte>)
    requires Holds(layout, n, bytes) && k < n
    ensures |record| == layout.Record()
  {
    ExtentGrows(k + 1, n, layout.Record());
    bytes[Extent(k, layout.Record())..Extent(k + 1, layout.Record())]
  }

  /** A status of zero means available. */
  function Read(layout: Layout, record: seq<Byte>): ScheduleResult
    requires layout.Valid() && |record| == layout.Record()
  {
    if record[0] == 0 then NotFound else Success(record[layout.header..])
  }

  function ScheduleAt(layout: Layout, n: nat, bytes: seq<Byte>, k: nat): ScheduleResult
    requires Holds(layout, n, bytes) && k < n
  {
    Read(layout, RecordAt(layout, n, bytes, k))
  }

  function PutRecord(layout: Layout, n: nat, bytes: seq<Byte>, k: nat, status: Byte, schedule: seq<Byte>): (after: seq<Byte>)
    requires Holds(layout, n, bytes) && k < n && |schedule| == layout.schedule
    ensures Holds(layout, n, after)
  {
    ExtentGrows(k + 1, n, layout.Record());
    var offset := Extent(k, layout.Record());
    Overwrite(bytes[offset := status], offset + layout.header, schedule)
  }

  lemma PutByte(layout: Layout, n: nat, bytes: seq<Byte>, k: nat, status: Byte, schedule: seq<Byte>, i: nat)
    requires Holds(layout, n, bytes) && k < n && |schedule| == layout.schedule && i < |bytes|
    ensures Extent(k, layout.Record()) < |bytes|
    ensures var offset := Extent(k, layout.Record());
      PutRecord(layout, n, bytes, k, status, schedule)[i] ==
        if i == offset then status
        else if offset + layout.header <= i < offset + layout.Record() then schedule[i - offset - layout.header]
        else bytes[i]
  {
    ExtentGrows(k + 1, n, layout.Record());
  }

  lemma RecordByte(layout: Layout, n: nat, bytes: seq<Byte>, k: nat, i: nat)
    requires Holds(layout, n, bytes) && k < n && i < layout.Record()
    ensures Extent(k, layout.Record()) + i < |bytes|
    ensures RecordAt(layout, n, bytes, k)[i] == bytes[Extent(k, layout.Record()) + i]
  {
    ExtentGrows(k + 1, n, layout.Record());
  }

  lemma PutElsewhere(layout: Layout, n: nat, bytes: seq<Byte>, k: nat, status: Byte, schedule: seq<Byte>, i: nat)
    requires Holds(layout, n, bytes) && k < n && |schedule| == layout.schedule && i < |bytes|
    requires i < Extent(k, layout.Record()) || Extent(k + 1, layout.Record()) <= i
    ensures PutRecord(layout, n, bytes, k, status, schedule)[i] == bytes[i]
  {
    PutByte(layout, n, bytes, k, status, schedule, i);
  }

  lemma OtherRecord(layout: Layout, n: nat, bytes: seq<Byte>, k: nat, status: Byte, schedule: seq<Byte>, j: nat)
    requires Holds(layout, n, bytes) && k < n && j < n && j != k && |schedule| == layout.schedule
    ensures RecordAt(layout, n, PutRecord(layout, n, bytes, k, status, schedule), j) == RecordAt(layout, n, bytes, j)
  {
    var after := PutRecord(layout, n, bytes, k, status, schedule);
    if j < k {
      ExtentGrows(j + 1, k, layout.Record());
    } else {
      ExtentGrows(k + 1, j, layout.Record());
    }
    forall i | 0 <= i < layout.Record()
      ensures RecordAt(layout, n, after, j)[i] == RecordAt(layout, n, bytes, j)[i]
    {
      RecordByte(layout, n, bytes, j, i);
      RecordByte(layout, n, after, j, i);
      PutElsewhere(layout, n, bytes, k, status, schedule, Extent(j, layout.Record()) + i);
    }
  }

  lemma OwnRecord(layout: Layout, n: nat, bytes: seq<Byte>, k: nat, status: Byte, schedule: seq<Byte>)
    requires Holds(layout, n, bytes) && k < n && |schedule| == layout.schedule
    ensures var record := RecordAt(layout, n, PutRecord(layout, n, bytes, k, status, schedule), k);
      record[0] == status && record[layout.header..] == schedule
  {
    var after := PutRecord(layout, n, bytes, k, status, schedule);
    forall i | 0 <= i < layout.Record()
      ensures i == 0 ==> RecordAt(layout, n, after, k)[i] == status
      ensures i >= layout.header ==> RecordAt(layout, n, after, k)[i] == schedule[i - layout.header]
    {
      RecordByte(layout, n, after, k, i);
      PutByte(layout, n, bytes, k, status, schedule, Extent(k, layout.Record()) + i);
    }
  }

  /** A schedule reads back as it was set; every other record is as before. */
  lemma SetThenGet(layout: Layout, n: nat, bytes: seq<Byte>, k: nat, status: Byte, schedule: seq<Byte>, j: nat)
    requires Holds(layout, n, bytes) && k < n && j < n && |schedule| == layout.schedule
    ensures ScheduleAt(layout, n, PutRecord(layout, n, bytes, k, status, schedule), j) ==
            if j != k then ScheduleAt(layout, n, bytes, j)
            else if status == 0 then NotFound else Success(schedule)
  {
    if j == k {
      OwnRecord(layout, n, bytes, k, status, schedule);
    } else {
      OtherRecord(layout, n, bytes, k, status, schedule, j);
    }
  }

  // ---- External indices

  /** Users and schedules count from one; the holiday table has one row. */
  predicate IsIndex(rows: nat, user: UInt16, index: UInt8) {
    1 <= index <= SCHEDULES_PER_ROW && 1 <= user <= rows
  }

  function Position(rows: nat, user: UInt16, index: UInt8): (k: nat)
    requires IsIndex(rows, user, index)
    ensures k < rows * SCHEDULES_PER_ROW
  {
    (user - 1) * SCHEDULES_PER_ROW + index - 1
  }

  /** The schedule set for one user and index reads back there, and nowhere else does anything change. */
  lemma TableRoundTrip(layout: Layout, rows: nat, bytes: seq<Byte>, user: UInt16, index: UInt8,
                       status: Byte, schedule: seq<Byte>, user': UInt16, index': UInt8)
    requires Holds(layout, rows * SCHEDULES_PER_ROW, bytes) && |schedule| == layout.schedule
    requires IsIndex(rows, user, index) && IsIndex(rows, user', index')
    ensures var n := rows * SCHEDULES_PER_ROW;
      var after := PutRecord(layout, n, bytes, Position(rows, user, index), status, schedule);
      ScheduleAt(layout, n, after, Position(rows, user', index')) ==
        if (user', index') != (user, index) then ScheduleAt(layout, n, bytes, Position(rows, user', index'))
        else if status == 0 then NotFound else Success(schedule)
  {
    SetThenGet(layout, rows * SCHEDULES_PER_ROW, bytes, Position(rows, user, index), status, schedule,
               Position(rows, user', index'));
  }

  // ---- Flash

  /** The saved length: schedules, not records, times the number of schedules in use. */
  function SavedLength(layout: Layout, count: nat): nat {
    Extent(count, layout.schedule)
  }

  lemma {:induction false} SavedLengthFits(layout: Layout, n: nat, count: nat)
    requires count <= n
    ensures SavedLength(layout, count) <= Extent(n, layout.Record())
    decreases n
  {
    if count == 0 {
    } else {
      SavedLengthFits(layout, n - 1, count - 1);
    }
  }

  function Saved(layout: Layout, n: nat, bytes: seq<Byte>, count: nat): seq<Byte>
    requires Holds(layout, n, bytes) && count <= n
  {
    SavedLengthFits(layout, n, count);
    bytes[..SavedLength(layout, count)]
  }

  function Fresh(layout: Layout, n: nat): seq<Byte> {
    seq(Extent(n, layout.Record()), _ => 0)
  }

  /** Zeroed memory over which the saved prefix is read. */
  function Loaded(layout: Layout, n: nat, flash: Option<seq<Byte>>): seq<Byte> {
    var zeroed := Fresh(layout, n);
    if flash.Some? && |flash.value| <= |zeroed| then flash.value + zeroed[|flash.value|..] else zeroed
  }

  function Reloaded(layout: Layout, n: nat, bytes: seq<Byte>, count: nat): (after: seq<Byte>)
    requires Holds(layout, n, bytes) && count <= n
    ensures Holds(layout, n, after)
  {
    SavedLengthFits(layout, n, count);
    Loaded(layout, n, Some(Saved(layout, n, bytes, count)))
  }

  /** The bytes of a record after a reload: those before the end of the saved prefix, then zeros. */
  lemma ReloadedRecord(layout: Layout, n: nat, bytes: seq<Byte>, count: nat, k: nat, i: nat)
    requires Holds(layout, n, bytes) && count <= n && k < n && i < layout.Record()
    ensures RecordAt(layout, n, Reloaded(layout, n, bytes, count), k)[i] ==
            if Extent(k, layout.Record()) + i < SavedLength(layout, count) then RecordAt(layout, n, bytes, k)[i] else 0
  {
    SavedLengthFits(layout, n, count);
    var after, position := Reloaded(layout, n, bytes, count), Extent(k, layout.Record()) + i;
    RecordByte(layout, n, bytes, k, i);
    RecordByte(layout, n, after, k, i);
    assert after[position] == if position < SavedLength(layout, count) then bytes[position] else 0;
  }

  /** What a reader finds in record k after a reload, for every layout, count and content: whole records
      of the saved prefix as they were, records beyond it not found, and in between a record with its old
      status whose schedule goes over into zeros. */
  lemma ReloadedSchedule(layout: Layout, n: nat, bytes: seq<Byte>, count: nat, k: nat)
    requires Holds(layout, n, bytes) && count <= n && k < n
    ensures var before := ScheduleAt(layout, n, bytes, k);
      var after := ScheduleAt(layout, n, Reloaded(layout, n, bytes, count), k);
      var saved := SavedLength(layout, count) - Extent(k, layout.Record());
      && (layout.Record() <= saved ==> after == before)
      && (saved <= 0 ==> after.NotFound?)
      && (0 < saved < layout.Record() ==>
            && (after.NotFound? <==> before.NotFound?)
            && (before.Success? ==>
                  |after.schedule| == |before.schedule|
                  && forall i :: 0 <= i < |before.schedule| ==>
                       after.schedule[i] == if layout.header + i < saved then before.schedule[i] else 0))
  {
    var old' := RecordAt(layout, n, bytes, k);
    var new' := RecordAt(layout, n, Reloaded(layout, n, bytes, count), k);
    forall i | 0 <= i < layout.Record()
      ensures new'[i] == if Extent(k, layout.Record()) + i < SavedLength(layout, count) then old'[i] else 0
    {
      ReloadedRecord(layout, n, bytes, count, k, i);
    }
    if layout.Record() <= SavedLength(layout, count) - Extent(k, layout.Record()) {
      assert new' == old';
    }
  }

  /** Record k comes back whatever the table held. */
  ghost predicate Survives(layout: Layout, n: nat, count: nat, k: nat)
    requires layout.Valid() && count <= n && k < n
  {
    forall bytes: seq<Byte> :: Holds(layout, n, bytes) ==>
      ScheduleAt(layout, n, Reloaded(layout, n, bytes, count), k) == ScheduleAt(layout, n, bytes, k)
  }

  /** A table full of ones: its record k loses its last byte when it ends beyond the saved prefix. */
  lemma OnesAreLost(layout: Layout, n: nat, count: nat, k: nat)
    requires layout.Valid() && count <= n && k < n && SavedLength(layout, count) < Extent(k + 1, layout.Record())
    ensures !Survives(layout, n, count, k)
  {
    var ones: seq<Byte> := seq(Extent(n, layout.Record()), _ => 1);
    assert Holds(layout, n, ones);
    var after := Reloaded(layout, n, ones, count);
    var last := layout.Record() - 1;
    RecordByte(layout, n, ones, k, last);
    RecordByte(layout, n, ones, k, 0);
    ReloadedRecord(layout, n, ones, count, k, last);
    assert RecordAt(layout, n, after, k)[last] == 0;
    assert RecordAt(layout, n, after, k)[layout.header..][layout.schedule - 1] == RecordAt(layout, n, after, k)[last];
    assert RecordAt(layout, n, ones, k)[layout.header..][layout.schedule - 1] == RecordAt(layout, n, ones, k)[last] == 1;
    assert ScheduleAt(layout, n, after, k) != ScheduleAt(layout, n, ones, k);
  }

  lemma ExtentBoundary(layout: Layout, n: nat, count: nat, k: nat)
    requires layout.Valid() && count <= n && k < n
    ensures Survives(layout, n, count, k) <==> Extent(k + 1, layout.Record()) <= Extent(count, layout.schedule)
  {
    if Extent(k + 1, layout.Record()) <= SavedLength(layout, count) {
      forall bytes: seq<Byte> | Holds(layout, n, bytes)
        ensures ScheduleAt(layout, n, Reloaded(layout, n, bytes, count), k) == ScheduleAt(layout, n, bytes, k)
      {
        ReloadedSchedule(layout, n, bytes, count, k);
      }
    } else {
      OnesAreLost(layout, n, count, k);
    }
  }

  lemma ExtentsAreProducts(k: nat, size: nat, k': nat, size': nat)
    ensures Extent(k, size) == k * size && Extent(k', size') == size' * k'
  {
    ExtentIsProduct(k, size);
    ExtentIsProduct(k', size');
    assert size' * k' == k' * size';
  }

  /** The reload boundary: record k survives exactly if it ends within the saved prefix. */
  lemma ReloadBoundary(layout: Layout, n: nat, count: nat, k: nat)
    requires layout.Valid() && count <= n && k < n
    ensures Survives(layout, n, count, k) <==> (k + 1) * layout.Record() <= layout.schedule * count
  {
    ExtentBoundary(layout, n, count, k);
    ExtentsAreProducts(k + 1, layout.Record(), count, layout.schedule);
  }

  // ---- Which schedules of which users survive

  /** How many schedules are saved: the lock parameters' number per user, times users. */
  function InUse(users: UInt16, perUser: UInt8): nat {
    users * perUser
  }

  /** Rows are always ten records wide, so the schedules in use spread over more records than are counted. */
  lemma InUseFits(rows: nat, users: UInt16, perUser: UInt8)
    requires users <= rows && perUser <= SCHEDULES_PER_ROW
    ensures InUse(users, perUser) <= rows * SCHEDULES_PER_ROW
    ensures users > 0 ==> InUse(users, perUser) <= (users - 1) * SCHEDULES_PER_ROW + perUser
  {
    ExtentIsProduct(users, perUser);
    ExtentBelow(users, perUser);
  }

  lemma {:induction false} ExtentBelow(users: nat, perUser: nat)
    requires perUser <= SCHEDULES_PER_ROW
    ensures Extent(users, perUser) <= users * SCHEDULES_PER_ROW
    ensures users > 0 ==> Extent(users, perUser) <= (users - 1) * SCHEDULES_PER_ROW + perUser
  {
    if users == 0 {
    } else {
      ExtentBelow(users - 1, perUser);
    }
  }

  /** Exactly which schedules survive a reboot, for all sizes and all lock parameters: a schedule's place is
      among rows of ten, in records; the bound is the number of schedules in use, in schedules. */
  lemma SurvivingSchedules(layout: Layout, rows: nat, users: UInt16, perUser: UInt8, user: UInt16, index: UInt8)
    requires layout.Valid() && users <= rows && perUser <= SCHEDULES_PER_ROW && IsIndex(rows, user, index)
    ensures InUse(users, perUser) <= rows * SCHEDULES_PER_ROW
    ensures Survives(layout, rows * SCHEDULES_PER_ROW, InUse(users, perUser), Position(rows, user, index))
            <==> ((user - 1) * SCHEDULES_PER_ROW + index) * layout.Record() <= layout.schedule * (users * perUser)
  {
    InUseFits(rows, users, perUser);
    ExtentBoundary(layout, rows * SCHEDULES_PER_ROW, InUse(users, perUser), Position(rows, user, index));
    ExtentsAreProducts((user - 1) * SCHEDULES_PER_ROW + index, layout.Record(), InUse(users, perUser), layout.schedule);
  }

  lemma MoreThanSchedules(k: nat, count: nat, layout: Layout)
    requires layout.Valid() && count <= k && 0 < k
    ensures layout.schedule * count < k * layout.Record()
  {
    assert k * layout.Record() == k * layout.header + k * layout.schedule;
    assert k * layout.header > 0;
    assert layout.schedule * count <= layout.schedule * k;
  }

  /** Whatever the sizes and the lock parameters, the last schedule in use never survives. */
  lemma LastScheduleIsLost(layout: Layout, rows: nat, users: UInt16, perUser: UInt8)
    requires layout.Valid() && 1 <= users <= rows && 1 <= perUser <= SCHEDULES_PER_ROW
    ensures InUse(users, perUser) <= rows * SCHEDULES_PER_ROW
    ensures !Survives(layout, rows * SCHEDULES_PER_ROW, InUse(users, perUser), Position(rows, users, perUser))
  {
    InUseFits(rows, users, perUser);
    SurvivingSchedules(layout, rows, users, perUser, users, perUser);
    MoreThanSchedules((users - 1) * SCHEDULES_PER_ROW + perUser, InUse(users, perUser), layout);
  }

  lemma FreshReloads(layout: Layout, n: nat, count: nat)
    requires layout.Valid() && count <= n
    ensures Holds(layout, n, Fresh(layout, n)) && Reloaded(layout, n, Fresh(layout, n), count) == Fresh(layout, n)
  {
    SavedLengthFits(layout, n, count);
  }

  // ---- The class

  class ScheduleTable {
    const layout: Layout
    const rows: nat
    /** The lock parameters: users (one for holidays) and schedules of each. */
    const users: UInt16
    const perUser: UInt8
    const memory: array<Byte>
    var flash: Option<seq<Byte>>

    /** What flash holds is what memory would save; before the first save memory reads as nothing. */
    ghost predicate Valid()
      reads this, memory
    {
      && users <= rows && perUser <= SCHEDULES_PER_ROW
      && Holds(layout, Size(), memory[..]) && Count() <= Size()
      && Loaded(layout, Size(), flash) == Reloaded(layout, Size(), memory[..], Count())
    }

    function Count(): nat {
      InUse(users, perUser)
    }

    function View(): Shape {
      Shape(layout, rows, users, perUser)
    }

    function Size(): nat {
      rows * SCHEDULES_PER_ROW
    }

    constructor (layout: Layout, rows: nat, users: UInt16, perUser: UInt8)
      requires layout.Valid() && users <= rows && perUser <= SCHEDULES_PER_ROW
      ensures Valid() && fresh(memory)
      ensures this.layout == layout && this.rows == rows && this.users == users && this.perUser == perUser
      ensures memory[..] == Fresh(layout, Size()) && flash == None
    {
      this.layout, this.rows, this.users, this.perUser := layout, rows, users, perUser;
      var size := Extent(rows * SCHEDULES_PER_ROW, layout.Record());
      memory := new Byte[size](_ => 0);
      flash := None;
      new;
      assert memory[..] == Fresh(layout, Size());
      InUseFits(rows, users, perUser);
      FreshReloads(layout, Size(), Count());
    }

    method CopySchedule(offset: nat, schedule: seq<Byte>)
      requires offset + |schedule| <= memory.Length
      modifies memory
      ensures memory[..] == Overwrite(old(memory[..]), offset, schedule)
    {
      for i := 0 to |schedule|
        invariant forall j :: 0 <= j < memory.Length ==>
                    memory[j] == if offset <= j < offset + i then schedule[j - offset] else old(memory[j])
      {
        memory[offset + i] := schedule[i];
      }
      assert |memory[..]| == |Overwrite(old(memory[..]), offset, schedule)|;
    }

    method SetSchedule(user: UInt16, index: UInt8, status: Byte, schedule: seq<Byte>) returns (ok: bool)
      requires Valid() && |schedule| == layout.schedule
      modifies memory, this`flash
      ensures Valid()
      ensures ok <==> IsIndex(rows, user, index)
      ensures ok ==> memory[..] == PutRecord(layout, Size(), old(memory[..]), Position(rows, user, index), status, schedule)
      ensures ok ==> flash == Some(Saved(layout, Size(), memory[..], Count()))
      ensures !ok ==> memory[..] == old(memory[..]) && flash == old(flash)
    {
      if index == 0 || user == 0 || index - 1 >= SCHEDULES_PER_ROW || user - 1 >= rows {
        return false;
      }
      var offset := Extent(Position(rows, user, index), layout.Record());
      ExtentGrows(Position(rows, user, index) + 1, Size(), layout.Record());
      ghost var put := PutRecord(layout, Size(), memory[..], Position(rows, user, index), status, schedule);
      memory[offset] := status;
      CopySchedule(offset + layout.header, schedule);
      assert memory[..] == put;
      SavedLengthFits(layout, Size(), Count());
      flash := Some(memory[..SavedLength(layout, Count())]);
      return true;
    }

    method GetSchedule(user: UInt16, index: UInt8) returns (result: ScheduleResult)
      requires Valid()
      ensures result.Failure? <==> !IsIndex(rows, user, index)
      ensures IsIndex(rows, user, index) ==> result == ScheduleAt(layout, Size(), memory[..], Position(rows, user, index))
    {
      if index == 0 || user == 0 || index - 1 >= SCHEDULES_PER_ROW || user - 1 >= rows {
        return Failure;
      }
      var offset := Extent(Position(rows, user, index), layout.Record());
      ExtentGrows(Position(rows, user, index) + 1, Size(), layout.Record());
      if memory[offset] == 0 {
        return NotFound;
      }
      return Success(memory[offset + layout.header..offset + layout.Record()]);
    }

    /** A reboot: memory is zeroed and the saved prefix is read back. */
    method ReadConfigValues()
      requires Valid()
      modifies memory
      ensures Valid() && memory[..] == Reloaded(layout, Size(), old(memory[..]), Count())
    {
      SavedLengthFits(layout, Size(), Count());
      var loaded := Loaded(layout, Size(), flash);
      forall i | 0 <= i < memory.Length {
        memory[i] := loaded[i];
      }
      assert memory[..] == loaded;
      assert Reloaded(layout, Size(), loaded, Count()) == loaded;
    }
  }

  // ---- Runs

  datatype TableOp = SetAt(user: UInt16, index: UInt8, status: Byte, schedule: seq<Byte>) | Reboot

  /** A table: its sizes and lock parameters. */
  datatype Shape = Shape(layout: Layout, rows: nat, users: UInt16, perUser: UInt8) {
    ghost predicate Valid() {
      layout.Valid() && users <= rows && perUser <= SCHEDULES_PER_ROW
    }

    function Size(): nat {
      rows * SCHEDULES_PER_ROW
    }

    function Count(): nat {
      InUse(users, perUser)
    }
  }

  ghost predicate ForTable(shape: Shape, ops: seq<TableOp>) {
    forall i :: 0 <= i < |ops| && ops[i].SetAt? ==> |ops[i].schedule| == shape.layout.schedule
  }

  function TableNext(shape: Shape, bytes: seq<Byte>, op: TableOp): (after: seq<Byte>)
    requires shape.Valid() && Holds(shape.layout, shape.Size(), bytes) && ForTable(shape, [op])
    ensures Holds(shape.layout, shape.Size(), after)
  {
    assert [op][0] == op;
    InUseFits(shape.rows, shape.users, shape.perUser);
    match op
    case Reboot => Reloaded(shape.layout, shape.Size(), bytes, shape.Count())
    case SetAt(user, index, status, schedule) =>
      if IsIndex(shape.rows, user, index) then
        PutRecord(shape.layout, shape.Size(), bytes, Position(shape.rows, user, index), status, schedule)
      else bytes
  }

  function TableRun(shape: Shape, ops: seq<TableOp>): (bytes: seq<Byte>)
    requires shape.Valid() && ForTable(shape, ops)
    ensures Holds(shape.layout, shape.Size(), bytes)
    decreases |ops|
  {
    if ops == [] then Fresh(shape.layout, shape.Size())
    else
      var last := |ops| - 1;
      TableNext(shape, TableRun(shape, ops[..last]), ops[last])
  }

  /** How much of a schedule's record lies within the saved prefix; negative if it begins beyond. */
  function SavedPart(shape: Shape, user: UInt16, index: UInt8): int
    requires IsIndex(shape.rows, user, index)
  {
    SavedLength(shape.layout, shape.Count()) - Extent(Position(shape.rows, user, index), shape.layout.Record())
  }

  /** What a reboot makes of one schedule. */
  function CutAt(layout: Layout, saved: int, result: ScheduleResult): ScheduleResult {
    if saved <= 0 then NotFound
    else if !result.Success? then result
    else Success(seq(|result.schedule|, i requires 0 <= i < |result.schedule| =>
           if layout.header + i < saved then result.schedule[i] else 0))
  }

  /** One schedule on its own: a call for it sets it, a reboot cuts it, nothing else touches it. */
  function Cell(shape: Shape, ops: seq<TableOp>, user: UInt16, index: UInt8): ScheduleResult
    requires IsIndex(shape.rows, user, index)
    decreases |ops|
  {
    if ops == [] then NotFound
    else
      var last, before := ops[|ops| - 1], Cell(shape, ops[..|ops| - 1], user, index);
      match last
      case Reboot => CutAt(shape.layout, SavedPart(shape, user, index), before)
      case SetAt(u, i, status, schedule) =>
        if (u, i) != (user, index) then before else if status == 0 then NotFound else Success(schedule)
  }

  lemma FreshIsEmpty(layout: Layout, n: nat, k: nat)
    requires layout.Valid() && k < n
    ensures ScheduleAt(layout, n, Fresh(layout, n), k) == NotFound
  {
    RecordByte(layout, n, Fresh(layout, n), k, 0);
  }

  lemma ReloadCuts(layout: Layout, n: nat, bytes: seq<Byte>, count: nat, k: nat)
    requires Holds(layout, n, bytes) && count <= n && k < n
    ensures ScheduleAt(layout, n, Reloaded(layout, n, bytes, count), k)
            == CutAt(layout, SavedLength(layout, count) - Extent(k, layout.Record()), ScheduleAt(layout, n, bytes, k))
  {
    ReloadedSchedule(layout, n, bytes, count, k);
  }

  /** The table is nothing but its schedules: over any sequence of calls and reboots, each reads as if it
      were alone. */
  lemma {:induction false} TableIsItsCells(shape: Shape, ops: seq<TableOp>, user: UInt16, index: UInt8)
    requires shape.Valid() && ForTable(shape, ops) && IsIndex(shape.rows, user, index)
    ensures ScheduleAt(shape.layout, shape.Size(), TableRun(shape, ops), Position(shape.rows, user, index))
            == Cell(shape, ops, user, index)
    decreases |ops|
  {
    var k := Position(shape.rows, user, index);
    if ops == [] {
      FreshIsEmpty(shape.layout, shape.Size(), k);
    } else {
      var last := |ops| - 1;
      var bytes := TableRun(shape, ops[..last]);
      TableIsItsCells(shape, ops[..last], user, index);
      InUseFits(shape.rows, shape.users, shape.perUser);
      match ops[last] {
        case Reboot => ReloadCuts(shape.layout, shape.Size(), bytes, shape.Count(), k);
        case SetAt(u, i, status, schedule) =>
          if IsIndex(shape.rows, u, i) {
            TableRoundTrip(shape.layout, shape.rows, bytes, u, i, status, schedule, user, index);
          }
      }
    }
  }

  /** What the calls last set, since the beginning or since the last reboot. */
  function LastSet(ops: seq<TableOp>, user: UInt16, index: UInt8, sinceReboot: bool): ScheduleResult
    decreases |ops|
  {
    if ops == [] then NotFound
    else
      match ops[|ops| - 1]
      case Reboot => if sinceReboot then NotFound else LastSet(ops[..|ops| - 1], user, index, sinceReboot)
      case SetAt(u, i, status, schedule) =>
        if (u, i) != (user, index) then LastSet(ops[..|ops| - 1], user, index, sinceReboot)
        else if status == 0 then NotFound else Success(schedule)
  }

  lemma CutWhole(layout: Layout, saved: int, result: ScheduleResult)
    requires layout.Valid() && layout.Record() <= saved && (result.Success? ==> |result.schedule| == layout.schedule)
    ensures CutAt(layout, saved, result) == result
  {
  }

  lemma {:induction false} CellInside(shape: Shape, ops: seq<TableOp>, user: UInt16, index: UInt8)
    requires shape.Valid() && ForTable(shape, ops) && IsIndex(shape.rows, user, index)
    requires shape.layout.Record() <= SavedPart(shape, user, index)
    ensures var cell := Cell(shape, ops, user, index);
      cell == LastSet(ops, user, index, false) && (cell.Success? ==> |cell.schedule| == shape.layout.schedule)
    decreases |ops|
  {
    if ops == [] {
    } else {
      var before := ops[..|ops| - 1];
      CellInside(shape, before, user, index);
      if ops[|ops| - 1].Reboot? {
        CutWhole(shape.layout, SavedPart(shape, user, index), Cell(shape, before, user, index));
      }
    }
  }

  lemma {:induction false} CellBeyond(shape: Shape, ops: seq<TableOp>, user: UInt16, index: UInt8)
    requires IsIndex(shape.rows, user, index) && SavedPart(shape, user, index) <= 0
    ensures Cell(shape, ops, user, index) == LastSet(ops, user, index, true)
    decreases |ops|
  {
    if ops == [] {
    } else {
      CellBeyond(shape, ops[..|ops| - 1], user, index);
    }
  }

  /** Over any sequence of calls and reboots from factory-new: a schedule within the bound of
      SurvivingSchedules reads as last set, one that begins beyond it as set since the last reboot. */
  lemma SchedulesOverRuns(shape: Shape, ops: seq<TableOp>, user: UInt16, index: UInt8)
    requires shape.Valid() && ForTable(shape, ops) && IsIndex(shape.rows, user, index)
    ensures var read := ScheduleAt(shape.layout, shape.Size(), TableRun(shape, ops), Position(shape.rows, user, index));
      var k := Position(shape.rows, user, index);
      var saved := shape.layout.schedule * (shape.users * shape.perUser);
      && ((k + 1) * shape.layout.Record() <= saved ==> read == LastSet(ops, user, index, false))
      && (saved <= k * shape.layout.Record() ==> read == LastSet(ops, user, index, true))
  {
    var k := Position(shape.rows, user, index);
    TableIsItsCells(shape, ops, user, index);
    ExtentIsProduct(k, shape.layout.Record());
    ExtentIsProduct(k + 1, shape.layout.Record());
    ExtentIsProduct(shape.Count(), shape.layout.schedule);
    if shape.layout.Record() <= SavedPart(shape, user, index) {
      CellInside(shape, ops, user, index);
    }
    if SavedPart(shape, user, index) <= 0 {
      CellBeyond(shape, ops, user, index);
    }
  }

  /** The object driven through any sequence of calls and reboots ends as the run says. */
  method PerformAll(table: ScheduleTable, ops: seq<TableOp>)
    requires table.Valid() && table.memory[..] == Fresh(table.layout, table.Size())
    requires ForTable(table.View(), ops)
    modifies table, table.memory
    ensures table.Valid() && table.memory[..] == TableRun(table.View(), ops)
  {
    for n := 0 to |ops|
      invariant table.Valid() && table.memory[..] == TableRun(table.View(), ops[..n])
    {
      assert ops[..n + 1][..n] == ops[..n] && ops[..n + 1][n] == ops[n];
      if ops[n].Reboot? {
        table.ReadConfigValues();
      } else {
        var ok := table.SetSchedule(ops[n].user, ops[n].index, ops[n].status, ops[n].schedule);
      }
    }
    assert ops[..|ops|] == ops;
  }
}
