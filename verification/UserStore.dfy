/** The user half of the lock manager's store: records whose name and credential spans point into rows
    of two tables, saved to flash in three writes. Callers may hand back the very spans they were given. */
module UserStore {
  import opened DoorLockTypes

  const MAX_USERS := 10
  const MAX_WEEKDAY_SCHEDULES_PER_USER := 10
  const MAX_YEARDAY_SCHEDULES_PER_USER := 10
  const MAX_HOLIDAY_SCHEDULES := 10

  /** The width of a name row is set by the Matter SDK; nothing here depends on its value. */
  type RowWidth = n: nat | n > 0 witness 1

  datatype UserStatus = AvailableUser | OccupiedEnabled | OccupiedDisabled

  datatype CredentialRef = CredentialRef(ctype: nat, index: nat)

  datatype UserRecord = UserRecord(
    nameLength: nat,
    uniqueId: nat,
    status: UserStatus,
    userType: nat,
    rule: nat,
    createdBy: nat,
    lastModifiedBy: nat,
    credentialCount: nat)

  datatype UserRam = UserRam(records: seq<UserRecord>, names: seq<seq<char>>, credentials: seq<seq<CredentialRef>>)

  datatype LockParams = LockParams(
    numberOfUsers: UInt16,
    numberOfCredentialsPerUser: UInt8,
    numberOfWeekdaySchedulesPerUser: UInt8,
    numberOfYeardaySchedulesPerUser: UInt8,
    numberOfHolidaySchedules: UInt8)

  /** The limits that Init checks; with other parameters the application stops. */
  predicate InitAccepts(p: LockParams) {
    && p.numberOfUsers <= MAX_USERS
    && p.numberOfCredentialsPerUser <= MAX_CREDENTIALS_PER_USER
    && p.numberOfWeekdaySchedulesPerUser <= MAX_WEEKDAY_SCHEDULES_PER_USER
    && p.numberOfYeardaySchedulesPerUser <= MAX_YEARDAY_SCHEDULES_PER_USER
    && p.numberOfHolidaySchedules <= MAX_HOLIDAY_SCHEDULES
  }

  // ---- Spans

  /** Where a caller's name comes from: its own memory, or the store, as a span that GetUser returned. */
  datatype NameSource = GivenName(chars: seq<char>) | NameSpan(user: nat, length: nat) {
    function Length(): nat {
      if GivenName? then |chars| else length
    }
  }

  datatype CredentialSource = GivenCredentials(refs: seq<CredentialRef>) | CredentialSpan(user: nat, length: nat) {
    function Length(): nat {
      if GivenCredentials? then |refs| else length
    }
  }

  predicate NameReadable(width: RowWidth, name: NameSource) {
    name.NameSpan? ==> name.user < MAX_USERS && name.length <= width
  }

  predicate CredentialsReadable(credentials: CredentialSource) {
    credentials.CredentialSpan? ==> credentials.user < MAX_USERS && credentials.length <= MAX_CREDENTIALS
  }

  ghost predicate WellFormed(width: RowWidth, ram: UserRam) {
    && |ram.records| == |ram.names| == |ram.credentials| == MAX_USERS
    && (forall u :: 0 <= u < MAX_USERS ==>
          && |ram.names[u]| == width && |ram.credentials[u]| == MAX_CREDENTIALS
          && ram.records[u].nameLength <= width && ram.records[u].credentialCount <= MAX_CREDENTIALS)
  }

  function NameOf(width: RowWidth, ram: UserRam, name: NameSource): seq<char>
    requires WellFormed(width, ram) && NameReadable(width, name)
  {
    match name
    case GivenName(chars) => chars
    case NameSpan(user, length) => ram.names[user][..length]
  }

  function CredentialsOf(width: RowWidth, ram: UserRam, credentials: CredentialSource): seq<CredentialRef>
    requires WellFormed(width, ram) && CredentialsReadable(credentials)
  {
    match credentials
    case GivenCredentials(refs) => refs
    case CredentialSpan(user, length) => ram.credentials[user][..length]
  }

  // ---- Users as a reader sees them

  datatype User =
    | NoUser
    | User(name: seq<char>, credentials: seq<CredentialRef>, uniqueId: nat, status: UserStatus,
           userType: nat, rule: nat, createdBy: nat, lastModifiedBy: nat)

  function UserAt(width: RowWidth, ram: UserRam, u: nat): User
    requires WellFormed(width, ram) && u < MAX_USERS
  {
    var r := ram.records[u];
    if r.status.AvailableUser? then NoUser
    else User(ram.names[u][..r.nameLength], ram.credentials[u][..r.credentialCount],
              r.uniqueId, r.status, r.userType, r.rule, r.createdBy, r.lastModifiedBy)
  }

  // ---- Setting a user

  /** What a call to set a user is given. */
  datatype UserEntry = UserEntry(
    index: nat,
    creator: nat,
    modifier: nat,
    name: NameSource,
    uniqueId: nat,
    status: UserStatus,
    userType: nat,
    rule: nat,
    credentials: CredentialSource)

  predicate Readable(width: RowWidth, e: UserEntry) {
    NameReadable(width, e.name) && CredentialsReadable(e.credentials)
  }

  predicate Accepted(width: RowWidth, p: LockParams, e: UserEntry) {
    && 1 <= e.index <= MAX_USERS
    && e.name.Length() <= width
    && e.credentials.Length() <= p.numberOfCredentialsPerUser
  }

  /** CopyString: as many characters as fit before a terminating NUL; the rest of the row stays. */
  function CopiedString(row: seq<char>, name: seq<char>): seq<char>
    requires |row| > 0
  {
    var k := if |name| <= |row| - 1 then |name| else |row| - 1;
    name[..k] + ['\0'] + row[k + 1..]
  }

  function RecordOf(e: UserEntry): UserRecord {
    UserRecord(e.name.Length(), e.uniqueId, e.status, e.userType, e.rule, e.creator, e.modifier, e.credentials.Length())
  }

  function PutUser(width: RowWidth, p: LockParams, ram: UserRam, e: UserEntry): UserRam
    requires WellFormed(width, ram) && InitAccepts(p) && Readable(width, e) && Accepted(width, p, e)
  {
    var u := e.index - 1;
    var refs := CredentialsOf(width, ram, e.credentials);
    UserRam(ram.records[u := RecordOf(e)],
            ram.names[u := CopiedString(ram.names[u], NameOf(width, ram, e.name))],
            ram.credentials[u := refs + ram.credentials[u][|refs|..]])
  }

  lemma PutKeepsWellFormed(width: RowWidth, p: LockParams, ram: UserRam, e: UserEntry)
    requires WellFormed(width, ram) && InitAccepts(p) && Readable(width, e) && Accepted(width, p, e)
    ensures WellFormed(width, PutUser(width, p, ram, e))
  {
    var u := e.index - 1;
    assert |CopiedString(ram.names[u], NameOf(width, ram, e.name))| == width;
  }

  // ---- Flash

  datatype UserFlash = UserFlash(
    records: Option<seq<UserRecord>>,
    credentials: Option<seq<seq<CredentialRef>>>,
    names: Option<seq<seq<char>>>)

  const EMPTY_FLASH := UserFlash(None, None, None)

  function FreshRam(width: RowWidth): UserRam {
    UserRam(seq(MAX_USERS, _ => UserRecord(0, 0, AvailableUser, 0, 0, 0, 0, 0)),
            seq(MAX_USERS, _ => seq(width, _ => '\0')),
            seq(MAX_USERS, _ => seq(MAX_CREDENTIALS, _ => CredentialRef(0, 0))))
  }

  /** A read overwrites the beginning of the table with what flash holds. */
  function Loaded<T>(table: seq<T>, saved: Option<seq<T>>): seq<T> {
    if saved.Some? && |saved.value| <= |table| then saved.value + table[|saved.value|..] else table
  }

  function Load(width: RowWidth, flash: UserFlash): UserRam {
    var zeroed := FreshRam(width);
    UserRam(Loaded(zeroed.records, flash.records), Loaded(zeroed.names, flash.names), Loaded(zeroed.credentials, flash.credentials))
  }

  /** Flash after the first `n` of the three writes of a call: the records and credential rows of the
      first `numberOfUsers` users, then all names. */
  function AfterWrites(width: RowWidth, p: LockParams, flash: UserFlash, ram: UserRam, n: nat): UserFlash
    requires WellFormed(width, ram) && InitAccepts(p)
  {
    UserFlash(if n >= 1 then Some(ram.records[..p.numberOfUsers]) else flash.records,
              if n >= 2 then Some(ram.credentials[..p.numberOfUsers]) else flash.credentials,
              if n >= 3 then Some(ram.names) else flash.names)
  }

  ghost predicate FlashWellFormed(width: RowWidth, flash: UserFlash) {
    && WellFormed(width, Load(width, flash))
    && (flash.records.Some? ==> |flash.records.value| <= MAX_USERS)
    && (flash.credentials.Some? ==> |flash.credentials.value| <= MAX_USERS)
    && (flash.names.Some? ==> |flash.names.value| <= MAX_USERS)
  }

  lemma LoadedEntry<T>(table: seq<T>, saved: Option<seq<T>>, u: nat)
    requires u < |table| && (saved.Some? ==> |saved.value| <= |table|)
    ensures |Loaded(table, saved)| == |table|
    ensures Loaded(table, saved)[u] == if saved.Some? && u < |saved.value| then saved.value[u] else table[u]
  {
  }

  lemma LoadedUser(width: RowWidth, flash: UserFlash, u: nat)
    requires FlashWellFormed(width, flash) && u < MAX_USERS
    ensures var loaded, zeroed := Load(width, flash), FreshRam(width);
      && loaded.records[u] == (if flash.records.Some? && u < |flash.records.value| then flash.records.value[u] else zeroed.records[u])
      && loaded.names[u] == (if flash.names.Some? && u < |flash.names.value| then flash.names.value[u] else zeroed.names[u])
      && loaded.credentials[u] == (if flash.credentials.Some? && u < |flash.credentials.value|
                                   then flash.credentials.value[u] else zeroed.credentials[u])
  {
    var zeroed := FreshRam(width);
    LoadedEntry(zeroed.records, flash.records, u);
    LoadedEntry(zeroed.names, flash.names, u);
    LoadedEntry(zeroed.credentials, flash.credentials, u);
  }

  lemma AfterWritesWellFormed(width: RowWidth, p: LockParams, flash: UserFlash, ram: UserRam, n: nat)
    requires FlashWellFormed(width, flash) && WellFormed(width, ram) && InitAccepts(p)
    ensures FlashWellFormed(width, AfterWrites(width, p, flash, ram, n))
  {
    var after, zeroed := AfterWrites(width, p, flash, ram, n), FreshRam(width);
    forall u | 0 <= u < MAX_USERS
      ensures var loaded := Load(width, after);
        && |loaded.records| == |loaded.names| == |loaded.credentials| == MAX_USERS
        && |loaded.names[u]| == width && |loaded.credentials[u]| == MAX_CREDENTIALS
        && loaded.records[u].nameLength <= width && loaded.records[u].credentialCount <= MAX_CREDENTIALS
    {
      LoadedUser(width, flash, u);
      LoadedEntry(zeroed.records, after.records, u);
      LoadedEntry(zeroed.names, after.names, u);
      LoadedEntry(zeroed.credentials, after.credentials, u);
    }
  }

  // ---- The class

  class Users {
    const width: RowWidth
    const params: LockParams
    const mLockUsers: array<UserRecord>
    const mUserNames: array2<char>
    const mCredentials: array2<CredentialRef>
    var flash: UserFlash
    /** Every content flash has had since the last boot, the present one last. */
    ghost var images: seq<UserFlash>

    ghost predicate Shaped() {
      && mLockUsers.Length == MAX_USERS
      && mUserNames.Length0 == MAX_USERS && mUserNames.Length1 == width
      && mCredentials.Length0 == MAX_USERS && mCredentials.Length1 == MAX_CREDENTIALS
    }

    ghost function NameRow(u: nat): seq<char>
      requires Shaped() && u < MAX_USERS
      reads mUserNames
    {
      seq(width, i requires 0 <= i < width reads mUserNames => mUserNames[u, i])
    }

    ghost function CredentialRow(u: nat): seq<CredentialRef>
      requires Shaped() && u < MAX_USERS
      reads mCredentials
    {
      seq(MAX_CREDENTIALS, i requires 0 <= i < MAX_CREDENTIALS reads mCredentials => mCredentials[u, i])
    }

    ghost function Ram(): UserRam
      requires Shaped()
      reads mLockUsers, mUserNames, mCredentials
    {
      UserRam(mLockUsers[..],
              seq(MAX_USERS, u requires 0 <= u < MAX_USERS reads mUserNames => NameRow(u)),
              seq(MAX_USERS, u requires 0 <= u < MAX_USERS reads mCredentials => CredentialRow(u)))
    }

    ghost predicate Valid()
      reads this, mLockUsers, mUserNames, mCredentials
    {
      && Shaped() && InitAccepts(params)
      && WellFormed(width, Ram()) && FlashWellFormed(width, flash)
      && images != [] && images[|images| - 1] == flash
    }

    /** Boots with parameters that Init has accepted: zeroed memory over which flash is read. */
    constructor ReadConfigValues(width: RowWidth, params: LockParams, flash: UserFlash)
      requires InitAccepts(params) && FlashWellFormed(width, flash)
      ensures Valid() && fresh(mLockUsers) && fresh(mUserNames) && fresh(mCredentials)
      ensures this.width == width && this.params == params
      ensures Ram() == Load(width, flash) && this.flash == flash && images == [flash]
    {
      this.width, this.params := width, params;
      var loaded := Load(width, flash);
      mLockUsers := new UserRecord[MAX_USERS](u requires 0 <= u < MAX_USERS => loaded.records[u]);
      mUserNames := new char[MAX_USERS, width]((u, i) requires 0 <= u < MAX_USERS && 0 <= i < width => loaded.names[u][i]);
      mCredentials := new CredentialRef[MAX_USERS, MAX_CREDENTIALS](
        (u, i) requires 0 <= u < MAX_USERS && 0 <= i < MAX_CREDENTIALS => loaded.credentials[u][i]);
      this.flash := flash;
      images := [flash];
      new;
      assert mLockUsers[..] == loaded.records;
      forall u | 0 <= u < MAX_USERS
        ensures NameRow(u) == loaded.names[u] && CredentialRow(u) == loaded.credentials[u]
      {
      }
      assert Ram().names == loaded.names && Ram().credentials == loaded.credentials;
    }

    method WriteConfig(newFlash: UserFlash)
      modifies this`flash, this`images
      ensures flash == newFlash && images == old(images) + [newFlash]
    {
      flash := newFlash;
      images := images + [newFlash];
    }

    /** The handle a reader gets: the record, and spans into the two tables. */
    method GetUser(index: nat) returns (ok: bool, user: User, name: NameSource, credentials: CredentialSource)
      requires Valid()
      ensures ok <==> 1 <= index <= MAX_USERS
      ensures ok ==> user == UserAt(width, Ram(), index - 1)
      ensures ok && user.User? ==>
                && NameReadable(width, name) && NameOf(width, Ram(), name) == user.name
                && CredentialsReadable(credentials) && CredentialsOf(width, Ram(), credentials) == user.credentials
                && name == NameSpan(index - 1, |user.name|) && credentials == CredentialSpan(index - 1, |user.credentials|)
    {
      user, name, credentials := NoUser, GivenName([]), GivenCredentials([]);
      if index == 0 || index - 1 >= MAX_USERS {
        return false, user, name, credentials;
      }
      var u := index - 1;
      var r := mLockUsers[u];
      assert r == Ram().records[u];
      if !r.status.AvailableUser? {
        name := NameSpan(u, r.nameLength);
        credentials := CredentialSpan(u, r.credentialCount);
        assert Ram().names[u] == NameRow(u) && Ram().credentials[u] == CredentialRow(u);
        user := User(seq(r.nameLength, i requires 0 <= i < r.nameLength reads mUserNames => mUserNames[u, i]),
                     seq(r.credentialCount, i requires 0 <= i < r.credentialCount reads mCredentials => mCredentials[u, i]),
                     r.uniqueId, r.status, r.userType, r.rule, r.createdBy, r.lastModifiedBy);
      }
      return true, user, name, credentials;
    }

    /** Reads through the source as the copy goes on, so that a span sees earlier writes of the copy. */
    method CopyString(u: nat, name: NameSource)
      requires Shaped() && WellFormed(width, Ram()) && u < MAX_USERS && NameReadable(width, name)
      modifies mUserNames
      ensures Ram() == old(Ram()).(names := old(Ram()).names[u := CopiedString(old(Ram()).names[u], NameOf(width, old(Ram()), name))])
    {
      ghost var chars := NameOf(width, Ram(), name);
      ghost var before := Ram().names;
      var k := if name.Length() <= width - 1 then name.Length() else width - 1;
      for i := 0 to k
        invariant forall r, c :: 0 <= r < MAX_USERS && 0 <= c < width ==>
                    mUserNames[r, c] == if r == u && c < i then chars[c] else before[r][c]
      {
        mUserNames[u, i] := if name.GivenName? then name.chars[i] else mUserNames[name.user, i];
      }
      mUserNames[u, k] := '\0';
      ghost var after := before[u := CopiedString(before[u], chars)];
      forall r | 0 <= r < MAX_USERS
        ensures NameRow(r) == after[r]
      {
      }
      assert Ram().names == after;
    }

    /** The loop over the caller's credentials, reading through a span as it goes on. */
    method CopyCredentials(u: nat, credentials: CredentialSource)
      requires Shaped() && WellFormed(width, Ram()) && u < MAX_USERS
      requires CredentialsReadable(credentials) && credentials.Length() <= MAX_CREDENTIALS
      modifies mCredentials
      ensures var refs := CredentialsOf(width, old(Ram()), credentials);
        Ram() == old(Ram()).(credentials := old(Ram()).credentials[u := refs + old(Ram()).credentials[u][|refs|..]])
    {
      ghost var refs := CredentialsOf(width, Ram(), credentials);
      ghost var before := Ram().credentials;
      for i := 0 to credentials.Length()
        invariant forall r, c :: 0 <= r < MAX_USERS && 0 <= c < MAX_CREDENTIALS ==>
                    mCredentials[r, c] == if r == u && c < i then refs[c] else before[r][c]
      {
        mCredentials[u, i] := if credentials.GivenCredentials? then credentials.refs[i] else mCredentials[credentials.user, i];
      }
      ghost var after := before[u := refs + before[u][|refs|..]];
      forall r | 0 <= r < MAX_USERS
        ensures CredentialRow(r) == after[r]
      {
      }
      assert Ram().credentials == after;
    }

    method SetUser(e: UserEntry) returns (ok: bool)
      requires Valid() && Readable(width, e)
      modifies this`flash, this`images, mLockUsers, mUserNames, mCredentials
      ensures Valid()
      ensures ok <==> Accepted(width, params, e)
      ensures ok ==> Ram() == PutUser(width, params, old(Ram()), e)
      ensures ok ==> images == old(images) + [AfterWrites(width, params, old(flash), Ram(), 1),
                                              AfterWrites(width, params, old(flash), Ram(), 2),
                                              AfterWrites(width, params, old(flash), Ram(), 3)]
      ensures !ok ==> Ram() == old(Ram()) && images == old(images) && flash == old(flash)
    {
      if e.index == 0 || e.index - 1 >= MAX_USERS {
        return false;
      }
      var u := e.index - 1;
      if e.name.Length() > width {
        return false;
      }
      if e.credentials.Length() > params.numberOfCredentialsPerUser {
        return false;
      }
      ghost var put := PutUser(width, params, Ram(), e);
      ghost var before := flash;
      CopyString(u, e.name);
      assert WellFormed(width, Ram());
      CopyCredentials(u, e.credentials);
      mLockUsers[u] := UserRecord(e.name.Length(), e.uniqueId, e.status, e.userType, e.rule, e.creator, e.modifier, e.credentials.Length());
      assert Ram() == put;
      PutKeepsWellFormed(width, params, old(Ram()), e);
      AfterWritesWellFormed(width, params, before, put, 3);
      Save();
      return true;
    }

    /** The three flash writes of SetUser. */
    method Save()
      requires Shaped() && InitAccepts(params) && WellFormed(width, Ram())
      modifies this`flash, this`images
      ensures images == old(images) + [AfterWrites(width, params, old(flash), Ram(), 1),
                                       AfterWrites(width, params, old(flash), Ram(), 2),
                                       AfterWrites(width, params, old(flash), Ram(), 3)]
      ensures flash == AfterWrites(width, params, old(flash), Ram(), 3)
    {
      var records := mLockUsers[..params.numberOfUsers];
      assert records == Ram().records[..params.numberOfUsers];
      WriteConfig(flash.(records := Some(records)));
      var rows := seq(params.numberOfUsers, u requires 0 <= u < params.numberOfUsers reads mCredentials =>
        seq(MAX_CREDENTIALS, i requires 0 <= i < MAX_CREDENTIALS reads mCredentials => mCredentials[u, i]));
      assert rows == Ram().credentials[..params.numberOfUsers] by {
        forall u | 0 <= u < params.numberOfUsers
          ensures rows[u] == Ram().credentials[u]
        {
          assert CredentialRow(u) == rows[u];
        }
      }
      WriteConfig(flash.(credentials := Some(rows)));
      var names := seq(MAX_USERS, u requires 0 <= u < MAX_USERS reads mUserNames =>
        seq(width, i requires 0 <= i < width reads mUserNames => mUserNames[u, i]));
      assert names == Ram().names by {
        forall u | 0 <= u < MAX_USERS
          ensures names[u] == Ram().names[u]
        {
          assert NameRow(u) == names[u];
        }
      }
      WriteConfig(flash.(names := Some(names)));
    }
  }

  // ---- Boot

  datatype InitError = NoError | AllocationFailed

  /** The checks of Init, one after the other, then the boot. A refusal stops the application. */
  method Init(width: RowWidth, params: LockParams, flash: UserFlash) returns (error: InitError, users: Users?)
    requires FlashWellFormed(width, flash)
    ensures error.NoError? <==> InitAccepts(params)
    ensures error.NoError? <==>
            && params.numberOfUsers <= 10 && params.numberOfCredentialsPerUser <= 10
            && params.numberOfWeekdaySchedulesPerUser <= 10 && params.numberOfYeardaySchedulesPerUser <= 10
            && params.numberOfHolidaySchedules <= 10
    ensures error.NoError? <==> users != null
    ensures users != null ==>
              && users.Valid() && fresh(users) && users.width == width && users.params == params
              && users.Ram() == Load(width, flash) && users.flash == flash
  {
    if params.numberOfUsers > MAX_USERS {
      return AllocationFailed, null;
    }
    if params.numberOfCredentialsPerUser > MAX_CREDENTIALS_PER_USER {
      return AllocationFailed, null;
    }
    if params.numberOfWeekdaySchedulesPerUser > MAX_WEEKDAY_SCHEDULES_PER_USER {
      return AllocationFailed, null;
    }
    if params.numberOfYeardaySchedulesPerUser > MAX_YEARDAY_SCHEDULES_PER_USER {
      return AllocationFailed, null;
    }
    if params.numberOfHolidaySchedules > MAX_HOLIDAY_SCHEDULES {
      return AllocationFailed, null;
    }
    users := new Users.ReadConfigValues(width, params, flash);
    return NoError, users;
  }
}
