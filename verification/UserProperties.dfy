/** What the user store is for: a user reads back as it was set, handing back the spans that were read
    changes nothing, users do not disturb each other, and a power loss is confined to one user. */
module UserProperties {
  import opened DoorLockTypes
  import opened UserStore

  // ---- Memory

  /** The user a call asks for. */
  function Requested(width: RowWidth, ram: UserRam, e: UserEntry): User
    requires WellFormed(width, ram) && Readable(width, e)
  {
    if e.status.AvailableUser? then NoUser
    else User(NameOf(width, ram, e.name), CredentialsOf(width, ram, e.credentials),
              e.uniqueId, e.status, e.userType, e.rule, e.creator, e.modifier)
  }

  /** A name as it is kept: one that fills its row gives its last character to the NUL. */
  function KeptName(width: RowWidth, name: seq<char>): seq<char>
    requires |name| <= width
  {
    if |name| < width then name else name[..width - 1] + ['\0']
  }

  function Kept(width: RowWidth, user: User): User
    requires user.User? ==> |user.name| <= width
  {
    if user.NoUser? then NoUser else user.(name := KeptName(width, user.name))
  }

  /** What a set user reads as, wherever its name and credentials come from. */
  lemma SetIsKept(width: RowWidth, p: LockParams, ram: UserRam, e: UserEntry)
    requires WellFormed(width, ram) && InitAccepts(p) && Readable(width, e) && Accepted(width, p, e)
    ensures WellFormed(width, PutUser(width, p, ram, e))
    ensures UserAt(width, PutUser(width, p, ram, e), e.index - 1) == Kept(width, Requested(width, ram, e))
  {
    PutKeepsWellFormed(width, p, ram, e);
    var u := e.index - 1;
    var name, refs := NameOf(width, ram, e.name), CredentialsOf(width, ram, e.credentials);
    var after := PutUser(width, p, ram, e);
    assert after.credentials[u][..|refs|] == refs;
    assert after.names[u][..|name|] == KeptName(width, name);
  }

  /** A user reads back as it was set exactly if it is absent or its name leaves room for the NUL that
      the copy writes, or already ends in one. */
  lemma SetThenGet(width: RowWidth, p: LockParams, ram: UserRam, e: UserEntry)
    requires WellFormed(width, ram) && InitAccepts(p) && Readable(width, e) && Accepted(width, p, e)
    ensures WellFormed(width, PutUser(width, p, ram, e))
    ensures var name := NameOf(width, ram, e.name);
      UserAt(width, PutUser(width, p, ram, e), e.index - 1) == Requested(width, ram, e)
      <==> e.status.AvailableUser? || |name| < width || name[width - 1] == '\0'
  {
    SetIsKept(width, p, ram, e);
    var name := NameOf(width, ram, e.name);
    if |name| == width {
      assert name == name[..width - 1] + [name[width - 1]];
      assert KeptName(width, name)[width - 1] == '\0';
    }
  }

  lemma OtherUsersInMemory(width: RowWidth, p: LockParams, ram: UserRam, e: UserEntry, v: nat)
    requires WellFormed(width, ram) && InitAccepts(p) && Readable(width, e) && Accepted(width, p, e)
    requires v < MAX_USERS && v != e.index - 1
    ensures WellFormed(width, PutUser(width, p, ram, e))
    ensures UserAt(width, PutUser(width, p, ram, e), v) == UserAt(width, ram, v)
  {
    PutKeepsWellFormed(width, p, ram, e);
  }

  /** The call that hands back what GetUser returned, spans included. */
  function HandedBack(width: RowWidth, ram: UserRam, index: nat): UserEntry
    requires WellFormed(width, ram) && 1 <= index <= MAX_USERS
  {
    var r := ram.records[index - 1];
    UserEntry(index, r.createdBy, r.lastModifiedBy, NameSpan(index - 1, r.nameLength), r.uniqueId, r.status,
              r.userType, r.rule, CredentialSpan(index - 1, r.credentialCount))
  }

  /** What all calls keep of memory: name rows end in NUL and the credential limit is respected. */
  ghost predicate Tidy(width: RowWidth, p: LockParams, ram: UserRam)
    requires WellFormed(width, ram)
  {
    forall u :: 0 <= u < MAX_USERS ==>
      ram.names[u][width - 1] == '\0' && ram.records[u].credentialCount <= p.numberOfCredentialsPerUser
  }

  lemma PutKeepsTidy(width: RowWidth, p: LockParams, ram: UserRam, e: UserEntry)
    requires WellFormed(width, ram) && InitAccepts(p) && Readable(width, e) && Accepted(width, p, e) && Tidy(width, p, ram)
    ensures WellFormed(width, PutUser(width, p, ram, e)) && Tidy(width, p, PutUser(width, p, ram, e))
  {
    PutKeepsWellFormed(width, p, ram, e);
  }

  /** Setting a user from the very spans that were read, so that the copies run onto themselves, is
      accepted and leaves every user as it was. */
  lemma HandingBackIsIdentity(width: RowWidth, p: LockParams, ram: UserRam, index: nat, v: nat)
    requires WellFormed(width, ram) && InitAccepts(p) && 1 <= index <= MAX_USERS && v < MAX_USERS
    requires Tidy(width, p, ram)
    ensures Accepted(width, p, HandedBack(width, ram, index))
    ensures var after := PutUser(width, p, ram, HandedBack(width, ram, index));
      WellFormed(width, after) && UserAt(width, after, v) == UserAt(width, ram, v)
  {
    var e := HandedBack(width, ram, index);
    if v != index - 1 {
      OtherUsersInMemory(width, p, ram, e, v);
    } else {
      SetThenGet(width, p, ram, e);
    }
  }

  // ---- Memory and flash

  datatype System = System(ram: UserRam, flash: UserFlash)

  datatype Operation =
    | Set(e: UserEntry)
    | Reboot
    | SetThenPowerLoss(e: UserEntry, writes: nat)  // power is lost after that many of the three writes, then the device boots

  /** What the calls keep: for every user that is saved, flash would load what memory holds. */
  ghost predicate Consistent(width: RowWidth, p: LockParams, s: System) {
    && InitAccepts(p) && WellFormed(width, s.ram) && FlashWellFormed(width, s.flash)
    && Tidy(width, p, s.ram) && Tidy(width, p, Load(width, s.flash))
    && forall v :: 0 <= v < p.numberOfUsers ==> SameUser(width, Load(width, s.flash), s.ram, v)
  }

  ghost predicate SameUser(width: RowWidth, ram: UserRam, ram': UserRam, v: nat)
    requires WellFormed(width, ram) && WellFormed(width, ram') && v < MAX_USERS
  {
    ram.records[v] == ram'.records[v] && ram.names[v] == ram'.names[v] && ram.credentials[v] == ram'.credentials[v]
  }

  function Rebooted(width: RowWidth, flash: UserFlash): System {
    System(Load(width, flash), flash)
  }

  function Next(width: RowWidth, p: LockParams, s: System, op: Operation): System
    requires WellFormed(width, s.ram) && InitAccepts(p)
    requires op.Reboot? || Readable(width, op.e)
  {
    match op
    case Reboot => Rebooted(width, s.flash)
    case Set(e) =>
      if Accepted(width, p, e) then
        PutKeepsWellFormed(width, p, s.ram, e);
        var ram := PutUser(width, p, s.ram, e);
        System(ram, AfterWrites(width, p, s.flash, ram, 3))
      else s
    case SetThenPowerLoss(e, writes) =>
      if Accepted(width, p, e) then
        PutKeepsWellFormed(width, p, s.ram, e);
        Rebooted(width, AfterWrites(width, p, s.flash, PutUser(width, p, s.ram, e), writes))
      else Rebooted(width, s.flash)
  }

  /** What a boot makes of a saved user after some of the writes. */
  lemma LoadedAfterWrites(width: RowWidth, p: LockParams, s: System, ram: UserRam, writes: nat, v: nat)
    requires Consistent(width, p, s) && WellFormed(width, ram) && v < p.numberOfUsers
    ensures var flash := AfterWrites(width, p, s.flash, ram, writes);
      && FlashWellFormed(width, flash)
      && var loaded := Load(width, flash);
      && loaded.records[v] == (if writes >= 1 then ram else s.ram).records[v]
      && loaded.credentials[v] == (if writes >= 2 then ram else s.ram).credentials[v]
      && loaded.names[v] == (if writes >= 3 then ram else s.ram).names[v]
  {
    AfterWritesWellFormed(width, p, s.flash, ram, writes);
    assert SameUser(width, Load(width, s.flash), s.ram, v);
    LoadedUser(width, s.flash, v);
    LoadedUser(width, AfterWrites(width, p, s.flash, ram, writes), v);
  }

  lemma SavedThenLoaded(width: RowWidth, p: LockParams, s: System, e: UserEntry, writes: nat, v: nat)
    requires Consistent(width, p, s) && Readable(width, e) && Accepted(width, p, e) && v < p.numberOfUsers
    ensures var ram := PutUser(width, p, s.ram, e);
      && WellFormed(width, ram)
      && var flash := AfterWrites(width, p, s.flash, ram, writes);
      && FlashWellFormed(width, flash)
      && (v != e.index - 1 ==> SameUser(width, Load(width, flash), s.ram, v))
      && (writes >= 3 ==> SameUser(width, Load(width, flash), ram, v))
  {
    PutKeepsWellFormed(width, p, s.ram, e);
    LoadedAfterWrites(width, p, s, PutUser(width, p, s.ram, e), writes, v);
  }

  /** Users beyond the saved ones have no record once records have been written. */
  lemma UnsavedIsGone(width: RowWidth, p: LockParams, flash: UserFlash, ram: UserRam, writes: nat, v: nat)
    requires InitAccepts(p) && FlashWellFormed(width, flash) && WellFormed(width, ram)
    requires writes >= 1 && p.numberOfUsers <= v < MAX_USERS
    ensures FlashWellFormed(width, AfterWrites(width, p, flash, ram, writes))
    ensures UserAt(width, Load(width, AfterWrites(width, p, flash, ram, writes)), v) == NoUser
  {
    AfterWritesWellFormed(width, p, flash, ram, writes);
    LoadedUser(width, AfterWrites(width, p, flash, ram, writes), v);
  }

  lemma FactoryNewIsConsistent(width: RowWidth, p: LockParams)
    requires InitAccepts(p)
    ensures Consistent(width, p, System(FreshRam(width), EMPTY_FLASH))
  {
  }

  lemma TidyWhenLoaded(width: RowWidth, p: LockParams, flash: UserFlash, ram: UserRam, writes: nat)
    requires InitAccepts(p) && FlashWellFormed(width, flash) && WellFormed(width, ram)
    requires Tidy(width, p, ram) && Tidy(width, p, Load(width, flash))
    ensures FlashWellFormed(width, AfterWrites(width, p, flash, ram, writes))
    ensures Tidy(width, p, Load(width, AfterWrites(width, p, flash, ram, writes)))
  {
    AfterWritesWellFormed(width, p, flash, ram, writes);
  }

  lemma ConsistentNext(width: RowWidth, p: LockParams, s: System, op: Operation)
    requires Consistent(width, p, s) && (op.Reboot? || Readable(width, op.e))
    ensures Consistent(width, p, Next(width, p, s, op))
  {
    if !op.Reboot? && Accepted(width, p, op.e) {
      var writes := if op.Set? then 3 else op.writes;
      var ram := PutUser(width, p, s.ram, op.e);
      PutKeepsTidy(width, p, s.ram, op.e);
      TidyWhenLoaded(width, p, s.flash, ram, writes);
      if op.Set? {
        forall v | 0 <= v < p.numberOfUsers
          ensures SameUser(width, Load(width, AfterWrites(width, p, s.flash, ram, 3)), ram, v)
        {
          SavedThenLoaded(width, p, s, op.e, 3, v);
        }
      }
    }
  }

  /** One call, completed or cut off by a power loss after any number of its flash writes, or a reboot,
      leaves every other saved user exactly as it was. */
  lemma {:induction false} OthersUntouched(width: RowWidth, p: LockParams, s: System, op: Operation, v: nat)
    requires Consistent(width, p, s) && v < p.numberOfUsers
    requires op.Reboot? || (Readable(width, op.e) && op.e.index != v + 1)
    ensures Consistent(width, p, Next(width, p, s, op))
    ensures UserAt(width, Next(width, p, s, op).ram, v) == UserAt(width, s.ram, v)
  {
    ConsistentNext(width, p, s, op);
    assert SameUser(width, Load(width, s.flash), s.ram, v);
    if !op.Reboot? && Accepted(width, p, op.e) {
      SavedThenLoaded(width, p, s, op.e, if op.Set? then 3 else op.writes, v);
    }
  }

  /** After a power loss the user being set is, by the number of writes done: the old one; the new record
      over the old credentials and the old name; the new record and credentials over the old name; the
      new one. A user that is not among the saved ones is gone as soon as the records are written. */
  lemma PowerLoss(width: RowWidth, p: LockParams, s: System, e: UserEntry, writes: nat)
    requires Consistent(width, p, s) && Readable(width, e) && Accepted(width, p, e)
    ensures var after := Next(width, p, s, SetThenPowerLoss(e, writes));
      var u := e.index - 1;
      var oldName, oldRefs := s.ram.names[u][..e.name.Length()], s.ram.credentials[u][..e.credentials.Length()];
      var requested := Requested(width, s.ram, e);
      && WellFormed(width, after.ram)
      && (e.index <= p.numberOfUsers ==>
            UserAt(width, after.ram, u) ==
              if writes == 0 then UserAt(width, s.ram, u)
              else if e.status.AvailableUser? then NoUser
              else if writes == 1 then requested.(name := oldName, credentials := oldRefs)
              else if writes == 2 then requested.(name := oldName)
              else Kept(width, requested))
      && (e.index > p.numberOfUsers && writes > 0 ==> UserAt(width, after.ram, u) == NoUser)
  {
    ConsistentNext(width, p, s, SetThenPowerLoss(e, writes));
    SetIsKept(width, p, s.ram, e);
    var u := e.index - 1;
    var ram := PutUser(width, p, s.ram, e);
    var refs := CredentialsOf(width, s.ram, e.credentials);
    assert ram.credentials[u][..|refs|] == refs;
    if u < p.numberOfUsers {
      LoadedAfterWrites(width, p, s, ram, writes, u);
      LoadedAfterWrites(width, p, s, ram, 0, u);
    } else if writes > 0 {
      UnsavedIsGone(width, p, s.flash, ram, writes, u);
    }
  }

  // ---- The class takes these steps

  /** A call of the store is one operation, and the contents that flash goes through during the call are
      exactly those a power loss can leave behind. */
  method SetInStore(store: Users, e: UserEntry) returns (ok: bool)
    requires store.Valid() && Readable(store.width, e)
    modifies store, store.mLockUsers, store.mUserNames, store.mCredentials
    ensures store.Valid() && (ok <==> Accepted(store.width, store.params, e))
    ensures System(store.Ram(), store.flash)
            == Next(store.width, store.params, old(System(store.Ram(), store.flash)), Set(e))
    ensures ok ==> |store.images| == |old(store.images)| + 3
    ensures ok ==> forall n :: 0 <= n <= 3 ==>
              store.images[|old(store.images)| - 1 + n]
              == Next(store.width, store.params, old(System(store.Ram(), store.flash)), SetThenPowerLoss(e, n)).flash
  {
    ok := store.SetUser(e);
  }

  // ---- Runs

  ghost predicate AllReadable(width: RowWidth, ops: seq<Operation>) {
    forall i :: 0 <= i < |ops| ==> ops[i].Reboot? || Readable(width, ops[i].e)
  }

  function Run(width: RowWidth, p: LockParams, s: System, ops: seq<Operation>): System
    requires Consistent(width, p, s) && AllReadable(width, ops)
    decreases |ops|
  {
    if ops == [] then s
    else ConsistentNext(width, p, s, ops[0]); Run(width, p, Next(width, p, s, ops[0]), ops[1..])
  }

  /** A saved user that no operation names keeps its value through any run of calls, reboots and power
      losses. */
  lemma {:induction false} UnnamedUntouched(width: RowWidth, p: LockParams, s: System, ops: seq<Operation>, v: nat)
    requires Consistent(width, p, s) && AllReadable(width, ops) && v < p.numberOfUsers
    requires forall i :: 0 <= i < |ops| ==> ops[i].Reboot? || ops[i].e.index != v + 1
    ensures Consistent(width, p, Run(width, p, s, ops))
    ensures UserAt(width, Run(width, p, s, ops).ram, v) == UserAt(width, s.ram, v)
    decreases |ops|
  {
    if ops == [] {
    } else {
      OthersUntouched(width, p, s, ops[0], v);
      UnnamedUntouched(width, p, Next(width, p, s, ops[0]), ops[1..], v);
    }
  }

  /** A completed call reloads to what memory holds for exactly the saved users: a user at or beyond
      `numberOfUsers`, which SetUser accepts up to the tenth, is gone after a reboot. */
  lemma ReloadBoundary(width: RowWidth, p: LockParams, s: System, e: UserEntry)
    requires Consistent(width, p, s) && Readable(width, e) && Accepted(width, p, e) && !e.status.AvailableUser?
    ensures var saved := Next(width, p, s, Set(e));
      var rebooted := Next(width, p, saved, Reboot);
      && Consistent(width, p, saved) && WellFormed(width, rebooted.ram)
      && (UserAt(width, rebooted.ram, e.index - 1) == UserAt(width, saved.ram, e.index - 1) <==> e.index <= p.numberOfUsers)
      && (e.index > p.numberOfUsers ==> UserAt(width, rebooted.ram, e.index - 1) == NoUser)
      && (forall v :: 0 <= v < p.numberOfUsers ==> UserAt(width, rebooted.ram, v) == UserAt(width, saved.ram, v))
  {
    ConsistentNext(width, p, s, Set(e));
    var saved := Next(width, p, s, Set(e));
    SetIsKept(width, p, s.ram, e);
    forall v | 0 <= v < p.numberOfUsers
      ensures UserAt(width, Load(width, saved.flash), v) == UserAt(width, saved.ram, v)
    {
      SavedThenLoaded(width, p, s, e, 3, v);
    }
    if e.index > p.numberOfUsers {
      UnsavedIsGone(width, p, s.flash, saved.ram, 3, e.index - 1);
    }
  }

  // ---- Every cell of the two tables

  /** Flash holds all names, and the credential rows of the saved users only. */
  ghost predicate RowsSaved(width: RowWidth, p: LockParams, s: System) {
    && Load(width, s.flash).names == s.ram.names
    && (s.flash.credentials.Some? ==> |s.flash.credentials.value| == p.numberOfUsers)
  }

  predicate Sets(width: RowWidth, p: LockParams, op: Operation, u: nat) {
    !op.Reboot? && Accepted(width, p, op.e) && op.e.index == u + 1
  }

  /** What is in a place of a name row: a call writes as many characters as leave room for a NUL, and the NUL; the
      characters come from the caller or from where the span pointed. Power lost before the third write undoes it. */
  function NameCell(width: RowWidth, p: LockParams, ops: seq<Operation>, u: nat, i: nat): char
    requires i < width
    decreases |ops|
  {
    if ops == [] then '\0' else
    var front, last := ops[..|ops| - 1], ops[|ops| - 1];
    if !Sets(width, p, last, u) || (last.SetThenPowerLoss? && last.writes < 3) then NameCell(width, p, front, u, i) else
    var kept := if last.e.name.Length() <= width - 1 then last.e.name.Length() else width - 1;
    if i > kept then NameCell(width, p, front, u, i)
    else if i == kept then '\0'
    else if last.e.name.GivenName? then last.e.name.chars[i]
    else NameCell(width, p, front, last.e.name.user, i)
  }

  /** What is in a place of a credential row, after which a restart forgets the rows of unsaved users. */
  function CredentialCell(width: RowWidth, p: LockParams, ops: seq<Operation>, u: nat, i: nat): CredentialRef
    decreases |ops|
  {
    if ops == [] then CredentialRef(0, 0) else
    var front, last := ops[..|ops| - 1], ops[|ops| - 1];
    if !last.Set? && u >= p.numberOfUsers then CredentialRef(0, 0)
    else if !Sets(width, p, last, u) || (last.SetThenPowerLoss? && last.writes < 2) || i >= last.e.credentials.Length() then
      CredentialCell(width, p, front, u, i)
    else if last.e.credentials.GivenCredentials? then last.e.credentials.refs[i]
    else CredentialCell(width, p, front, last.e.credentials.user, i)
  }

  lemma RowsSavedNext(width: RowWidth, p: LockParams, s: System, op: Operation)
    requires Consistent(width, p, s) && RowsSaved(width, p, s) && (op.Reboot? || Readable(width, op.e))
    ensures RowsSaved(width, p, Next(width, p, s, op))
  {
    if !op.Reboot? && Accepted(width, p, op.e) {
      PutKeepsWellFormed(width, p, s.ram, op.e);
      NamesAfterWrites(width, p, s, PutUser(width, p, s.ram, op.e), if op.Set? then 3 else op.writes);
    }
  }

  lemma NamesAfterWrites(width: RowWidth, p: LockParams, s: System, ram: UserRam, writes: nat)
    requires Consistent(width, p, s) && RowsSaved(width, p, s) && WellFormed(width, ram)
    ensures var flash := AfterWrites(width, p, s.flash, ram, writes);
      Load(width, flash).names == if writes >= 3 then ram.names else s.ram.names
  {
    AfterWritesWellFormed(width, p, s.flash, ram, writes);
    if writes >= 3 {
      assert ram.names + FreshRam(width).names[|ram.names|..] == ram.names;
    }
  }

  lemma NameOfPut(width: RowWidth, p: LockParams, ram: UserRam, e: UserEntry, u: nat, i: nat)
    requires WellFormed(width, ram) && InitAccepts(p) && Readable(width, e) && Accepted(width, p, e)
    requires u < MAX_USERS && i < width
    ensures WellFormed(width, PutUser(width, p, ram, e))
    ensures var kept := if e.name.Length() <= width - 1 then e.name.Length() else width - 1;
      PutUser(width, p, ram, e).names[u][i] ==
        if e.index != u + 1 || i > kept then ram.names[u][i]
        else if i == kept then '\0'
        else if e.name.GivenName? then e.name.chars[i]
        else ram.names[e.name.user][i]
  {
    PutKeepsWellFormed(width, p, ram, e);
  }

  lemma NameOfStep(width: RowWidth, p: LockParams, s: System, op: Operation, u: nat, i: nat)
    requires Consistent(width, p, s) && RowsSaved(width, p, s) && (op.Reboot? || Readable(width, op.e))
    requires u < MAX_USERS && i < width
    ensures var after := Next(width, p, s, op).ram;
      && WellFormed(width, after)
      && after.names[u][i] ==
         if !Sets(width, p, op, u) || (op.SetThenPowerLoss? && op.writes < 3) then s.ram.names[u][i]
         else
           var kept := if op.e.name.Length() <= width - 1 then op.e.name.Length() else width - 1;
           if i > kept then s.ram.names[u][i]
           else if i == kept then '\0'
           else if op.e.name.GivenName? then op.e.name.chars[i]
           else s.ram.names[op.e.name.user][i]
  {
    ConsistentNext(width, p, s, op);
    if !op.Reboot? && Accepted(width, p, op.e) {
      NameOfPut(width, p, s.ram, op.e, u, i);
      if op.SetThenPowerLoss? {
        NamesAfterWrites(width, p, s, PutUser(width, p, s.ram, op.e), op.writes);
      }
    }
  }

  lemma CredentialOfPut(width: RowWidth, p: LockParams, ram: UserRam, e: UserEntry, u: nat, i: nat)
    requires WellFormed(width, ram) && InitAccepts(p) && Readable(width, e) && Accepted(width, p, e)
    requires u < MAX_USERS && i < MAX_CREDENTIALS
    ensures WellFormed(width, PutUser(width, p, ram, e))
    ensures PutUser(width, p, ram, e).credentials[u][i] ==
            if e.index != u + 1 || i >= e.credentials.Length() then ram.credentials[u][i]
            else if e.credentials.GivenCredentials? then e.credentials.refs[i]
            else ram.credentials[e.credentials.user][i]
  {
    PutKeepsWellFormed(width, p, ram, e);
  }

  lemma CredentialsOfUnsaved(width: RowWidth, p: LockParams, flash: UserFlash, u: nat)
    requires FlashWellFormed(width, flash) && InitAccepts(p) && p.numberOfUsers <= u < MAX_USERS
    requires flash.credentials.Some? ==> |flash.credentials.value| == p.numberOfUsers
    ensures Load(width, flash).credentials[u] == FreshRam(width).credentials[u]
  {
    LoadedUser(width, flash, u);
  }

  lemma CredentialOfStep(width: RowWidth, p: LockParams, s: System, op: Operation, u: nat, i: nat)
    requires Consistent(width, p, s) && RowsSaved(width, p, s) && (op.Reboot? || Readable(width, op.e))
    requires u < MAX_USERS && i < MAX_CREDENTIALS
    ensures var after := Next(width, p, s, op).ram;
      && WellFormed(width, after)
      && after.credentials[u][i] ==
         if !op.Set? && u >= p.numberOfUsers then CredentialRef(0, 0)
         else if !Sets(width, p, op, u) || (op.SetThenPowerLoss? && op.writes < 2) || i >= op.e.credentials.Length() then
           s.ram.credentials[u][i]
         else if op.e.credentials.GivenCredentials? then op.e.credentials.refs[i]
         else s.ram.credentials[op.e.credentials.user][i]
  {
    ConsistentNext(width, p, s, op);
    RowsSavedNext(width, p, s, op);
    if !op.Reboot? && Accepted(width, p, op.e) {
      CredentialOfPut(width, p, s.ram, op.e, u, i);
    }
    if !op.Set? {
      var flash := Next(width, p, s, op).flash;
      if u >= p.numberOfUsers {
        CredentialsOfUnsaved(width, p, flash, u);
      } else if op.SetThenPowerLoss? && Accepted(width, p, op.e) {
        LoadedAfterWrites(width, p, s, PutUser(width, p, s.ram, op.e), op.writes, u);
      } else {
        assert SameUser(width, Load(width, s.flash), s.ram, u);
      }
    }
  }

  lemma {:induction false} RunExtends(width: RowWidth, p: LockParams, s: System, ops: seq<Operation>, op: Operation)
    requires Consistent(width, p, s) && AllReadable(width, ops) && (op.Reboot? || Readable(width, op.e))
    ensures AllReadable(width, ops + [op]) && Consistent(width, p, Run(width, p, s, ops))
    ensures Run(width, p, s, ops + [op]) == Next(width, p, Run(width, p, s, ops), op)
    decreases |ops|
  {
    if ops == [] {
      ConsistentNext(width, p, s, op);
      assert ops + [op] == [op] && [op][1..] == [];
    } else {
      ConsistentNext(width, p, s, ops[0]);
      RunExtends(width, p, Next(width, p, s, ops[0]), ops[1..], op);
      assert (ops + [op])[0] == ops[0] && (ops + [op])[1..] == ops[1..] + [op];
    }
  }

  function FactoryNew(width: RowWidth): System {
    System(FreshRam(width), EMPTY_FLASH)
  }

  lemma {:induction false} RowsSavedRun(width: RowWidth, p: LockParams, ops: seq<Operation>)
    requires InitAccepts(p) && AllReadable(width, ops)
    ensures Consistent(width, p, FactoryNew(width)) && Consistent(width, p, Run(width, p, FactoryNew(width), ops))
    ensures RowsSaved(width, p, Run(width, p, FactoryNew(width), ops))
    decreases |ops|
  {
    FactoryNewIsConsistent(width, p);
    if ops == [] {
    } else {
      var front, last := ops[..|ops| - 1], ops[|ops| - 1];
      RowsSavedRun(width, p, front);
      RunExtends(width, p, FactoryNew(width), front, last);
      assert ops == front + [last];
      RowsSavedNext(width, p, Run(width, p, FactoryNew(width), front), last);
      ConsistentNext(width, p, Run(width, p, FactoryNew(width), front), last);
    }
  }

  /** Over any run of calls, with sources of any kind, reboots and power losses: every place of the name table holds
      what was last written to it, also behind the end of a shorter name, where spans kept by callers still point. */
  lemma {:induction false} NamesOverRuns(width: RowWidth, p: LockParams, ops: seq<Operation>, u: nat, i: nat)
    requires InitAccepts(p) && AllReadable(width, ops) && u < MAX_USERS && i < width
    ensures Consistent(width, p, FactoryNew(width)) && WellFormed(width, Run(width, p, FactoryNew(width), ops).ram)
    ensures Run(width, p, FactoryNew(width), ops).ram.names[u][i] == NameCell(width, p, ops, u, i)
    decreases |ops|
  {
    RowsSavedRun(width, p, ops);
    if ops == [] {
    } else {
      var front, last := ops[..|ops| - 1], ops[|ops| - 1];
      RowsSavedRun(width, p, front);
      RunExtends(width, p, FactoryNew(width), front, last);
      assert ops == front + [last];
      NamesOverRuns(width, p, front, u, i);
      if !last.Reboot? && last.e.name.NameSpan? {
        NamesOverRuns(width, p, front, last.e.name.user, i);
      }
      NameOfStep(width, p, Run(width, p, FactoryNew(width), front), last, u, i);
    }
  }

  /** The same for the credential table. */
  lemma {:induction false} CredentialsOverRuns(width: RowWidth, p: LockParams, ops: seq<Operation>, u: nat, i: nat)
    requires InitAccepts(p) && AllReadable(width, ops) && u < MAX_USERS && i < MAX_CREDENTIALS
    ensures Consistent(width, p, FactoryNew(width)) && WellFormed(width, Run(width, p, FactoryNew(width), ops).ram)
    ensures Run(width, p, FactoryNew(width), ops).ram.credentials[u][i] == CredentialCell(width, p, ops, u, i)
    decreases |ops|
  {
    RowsSavedRun(width, p, ops);
    if ops == [] {
    } else {
      var front, last := ops[..|ops| - 1], ops[|ops| - 1];
      RowsSavedRun(width, p, front);
      RunExtends(width, p, FactoryNew(width), front, last);
      assert ops == front + [last];
      CredentialsOverRuns(width, p, front, u, i);
      if !last.Reboot? && last.e.credentials.CredentialSpan? {
        CredentialsOverRuns(width, p, front, last.e.credentials.user, i);
      }
      CredentialOfStep(width, p, Run(width, p, FactoryNew(width), front), last, u, i);
    }
  }

  // ---- The map it refines

  /** A name from the caller's own memory, or the span that GetUser has just returned for a user. */
  datatype NameChoice = NewName(chars: seq<char>) | NameOfUser(index: nat)

  datatype CredentialChoice = NewCredentials(refs: seq<CredentialRef>) | CredentialsOfUser(index: nat)

  datatype Call =
    | SetUser(index: nat, creator: nat, modifier: nat, name: NameChoice, uniqueId: nat, status: UserStatus,
              userType: nat, rule: nat, credentials: CredentialChoice)
    | HandBack(index: nat)  // set a user from all that GetUser returned for it
    | Restart

  predicate Occupies(width: RowWidth, ram: UserRam, index: nat)
    requires WellFormed(width, ram)
  {
    1 <= index <= MAX_USERS && UserAt(width, ram, index - 1).User?
  }

  /** The spans a caller has at hand; there are none to be had of a user that is not there. */
  function NameAtHand(width: RowWidth, ram: UserRam, name: NameChoice): Option<NameSource>
    requires WellFormed(width, ram)
  {
    match name
    case NewName(chars) => Some(GivenName(chars))
    case NameOfUser(index) =>
      if Occupies(width, ram, index) then Some(NameSpan(index - 1, ram.records[index - 1].nameLength)) else None
  }

  function CredentialsAtHand(width: RowWidth, ram: UserRam, credentials: CredentialChoice): Option<CredentialSource>
    requires WellFormed(width, ram)
  {
    match credentials
    case NewCredentials(refs) => Some(GivenCredentials(refs))
    case CredentialsOfUser(index) =>
      if Occupies(width, ram, index) then Some(CredentialSpan(index - 1, ram.records[index - 1].credentialCount)) else None
  }

  /** What the call passes to the store, if it can be made. */
  function EntryOf(width: RowWidth, ram: UserRam, call: Call): (e: Option<UserEntry>)
    requires WellFormed(width, ram)
    ensures e.Some? ==> Readable(width, e.value)
  {
    match call
    case SetUser(index, creator, modifier, name, uniqueId, status, userType, rule, credentials) =>
      var nameSource, credentialSource := NameAtHand(width, ram, name), CredentialsAtHand(width, ram, credentials);
      if nameSource.None? || credentialSource.None? then None
      else Some(UserEntry(index, creator, modifier, nameSource.value, uniqueId, status, userType, rule, credentialSource.value))
    case HandBack(index) => if Occupies(width, ram, index) then Some(HandedBack(width, ram, index)) else None
    case Restart => None
  }

  function Performed(width: RowWidth, p: LockParams, s: System, call: Call): System
    requires WellFormed(width, s.ram) && InitAccepts(p)
  {
    var e := EntryOf(width, s.ram, call);
    if call.Restart? then Next(width, p, s, Reboot)
    else if e.Some? then Next(width, p, s, Set(e.value))
    else s
  }

  function MapUser(m: map<nat, User>, index: nat): User {
    if 1 <= index <= MAX_USERS && index in m then m[index] else NoUser
  }

  function NameIn(m: map<nat, User>, name: NameChoice): Option<seq<char>> {
    match name
    case NewName(chars) => Some(chars)
    case NameOfUser(index) => if MapUser(m, index).User? then Some(MapUser(m, index).name) else None
  }

  function CredentialsIn(m: map<nat, User>, credentials: CredentialChoice): Option<seq<CredentialRef>> {
    match credentials
    case NewCredentials(refs) => Some(refs)
    case CredentialsOfUser(index) => if MapUser(m, index).User? then Some(MapUser(m, index).credentials) else None
  }

  /** The map from external index to user: names and credentials are looked up where the call took its
      spans from, handing back does nothing, a restart forgets unsaved users. */
  function MapPerformed(width: RowWidth, p: LockParams, m: map<nat, User>, call: Call): map<nat, User> {
    match call
    case SetUser(index, creator, modifier, name, uniqueId, status, userType, rule, credentials) =>
      var chars, refs := NameIn(m, name), CredentialsIn(m, credentials);
      if chars.None? || refs.None? || !(1 <= index <= MAX_USERS)
         || |chars.value| > width || |refs.value| > p.numberOfCredentialsPerUser then m
      else m[index := if status.AvailableUser? then NoUser
                      else User(KeptName(width, chars.value), refs.value, uniqueId, status, userType, rule, creator, modifier)]
    case HandBack(_) => m
    case Restart => map index | index in m && index <= p.numberOfUsers :: m[index]
  }

  ghost predicate Represents(width: RowWidth, s: System, m: map<nat, User>)
    requires WellFormed(width, s.ram)
  {
    forall index :: 1 <= index <= MAX_USERS ==> UserAt(width, s.ram, index - 1) == MapUser(m, index)
  }

  /** Flash has no record beyond the saved users. */
  predicate SavedOnly(p: LockParams, flash: UserFlash) {
    flash.records.Some? ==> |flash.records.value| == p.numberOfUsers
  }

  /** The spans at hand hold what the map has. */
  lemma SpansHoldTheMap(width: RowWidth, s: System, m: map<nat, User>, call: Call)
    requires WellFormed(width, s.ram) && Represents(width, s, m) && call.SetUser?
    ensures var e := EntryOf(width, s.ram, call);
      var name, refs := NameIn(m, call.name), CredentialsIn(m, call.credentials);
      if name.None? || refs.None? then e.None?
      else
        && e.Some?
        && NameOf(width, s.ram, e.value.name) == name.value && e.value.name.Length() == |name.value|
        && CredentialsOf(width, s.ram, e.value.credentials) == refs.value && e.value.credentials.Length() == |refs.value|
  {
  }

  lemma RepresentsSet(width: RowWidth, p: LockParams, s: System, m: map<nat, User>, call: Call)
    requires Consistent(width, p, s) && Represents(width, s, m) && call.SetUser?
    ensures var next := Performed(width, p, s, call);
      WellFormed(width, next.ram) && Represents(width, next, MapPerformed(width, p, m, call))
  {
    SpansHoldTheMap(width, s, m, call);
    var entry := EntryOf(width, s.ram, call);
    if entry.Some? && Accepted(width, p, entry.value) {
      var e := entry.value;
      SetIsKept(width, p, s.ram, e);
      var m' := MapPerformed(width, p, m, call);
      forall index | 1 <= index <= MAX_USERS
        ensures UserAt(width, PutUser(width, p, s.ram, e), index - 1) == MapUser(m', index)
      {
        if index == call.index {
          assert MapUser(m', index) == Kept(width, Requested(width, s.ram, e));
        } else {
          OtherUsersInMemory(width, p, s.ram, e, index - 1);
          assert MapUser(m', index) == MapUser(m, index);
        }
      }
    }
  }

  lemma HandedBackInMemory(width: RowWidth, p: LockParams, s: System, index: nat)
    requires InitAccepts(p) && WellFormed(width, s.ram) && Tidy(width, p, s.ram) && Occupies(width, s.ram, index)
    ensures Accepted(width, p, HandedBack(width, s.ram, index))
    ensures Performed(width, p, s, HandBack(index)).ram == PutUser(width, p, s.ram, HandedBack(width, s.ram, index))
  {
  }

  lemma RepresentsHandBack(width: RowWidth, p: LockParams, s: System, m: map<nat, User>, index: nat)
    requires Consistent(width, p, s) && Represents(width, s, m)
    ensures var next := Performed(width, p, s, HandBack(index));
      WellFormed(width, next.ram) && Represents(width, next, m)
  {
    if Occupies(width, s.ram, index) {
      var next := Performed(width, p, s, HandBack(index));
      HandedBackInMemory(width, p, s, index);
      HandingBackIsIdentity(width, p, s.ram, index, 0);
      forall other | 1 <= other <= MAX_USERS
        ensures UserAt(width, next.ram, other - 1) == MapUser(m, other)
      {
        HandingBackIsIdentity(width, p, s.ram, index, other - 1);
        assert UserAt(width, s.ram, other - 1) == MapUser(m, other);
      }
    }
  }

  lemma RepresentsRestart(width: RowWidth, p: LockParams, s: System, m: map<nat, User>)
    requires Consistent(width, p, s) && Represents(width, s, m) && SavedOnly(p, s.flash)
    ensures var next := Performed(width, p, s, Restart);
      WellFormed(width, next.ram) && Represents(width, next, MapPerformed(width, p, m, Restart))
  {
    var m' := MapPerformed(width, p, m, Restart);
    forall index | 1 <= index <= MAX_USERS
      ensures UserAt(width, Load(width, s.flash), index - 1) == MapUser(m', index)
    {
      if index <= p.numberOfUsers {
        assert SameUser(width, Load(width, s.flash), s.ram, index - 1);
        assert MapUser(m', index) == MapUser(m, index);
      } else {
        assert Load(width, s.flash).records[index - 1] == FreshRam(width).records[index - 1];
        assert index !in m';
      }
    }
  }

  function PerformedAll(width: RowWidth, p: LockParams, s: System, calls: seq<Call>): System
    requires Consistent(width, p, s)
    decreases |calls|
  {
    if calls == [] then s else
      PerformedIsConsistent(width, p, s, calls[0]);
      PerformedAll(width, p, Performed(width, p, s, calls[0]), calls[1..])
  }

  lemma PerformedIsConsistent(width: RowWidth, p: LockParams, s: System, call: Call)
    requires Consistent(width, p, s)
    ensures Consistent(width, p, Performed(width, p, s, call))
    ensures SavedOnly(p, s.flash) ==> SavedOnly(p, Performed(width, p, s, call).flash)
  {
    var e := EntryOf(width, s.ram, call);
    if call.Restart? {
      ConsistentNext(width, p, s, Reboot);
    } else if e.Some? {
      ConsistentNext(width, p, s, Set(e.value));
    }
  }

  function MapPerformedAll(width: RowWidth, p: LockParams, m: map<nat, User>, calls: seq<Call>): map<nat, User>
    decreases |calls|
  {
    if calls == [] then m else MapPerformedAll(width, p, MapPerformed(width, p, m, calls[0]), calls[1..])
  }

  lemma {:induction false} RepresentsAll(width: RowWidth, p: LockParams, s: System, m: map<nat, User>, calls: seq<Call>)
    requires Consistent(width, p, s) && SavedOnly(p, s.flash) && Represents(width, s, m)
    ensures var end := PerformedAll(width, p, s, calls);
      WellFormed(width, end.ram) && Represents(width, end, MapPerformedAll(width, p, m, calls))
    decreases |calls|
  {
    if calls == [] {
    } else {
      PerformedIsConsistent(width, p, s, calls[0]);
      match calls[0] {
        case SetUser(_, _, _, _, _, _, _, _, _) => RepresentsSet(width, p, s, m, calls[0]);
        case HandBack(index) => RepresentsHandBack(width, p, s, m, index);
        case Restart => RepresentsRestart(width, p, s, m);
      }
      RepresentsAll(width, p, Performed(width, p, s, calls[0]), MapPerformed(width, p, m, calls[0]), calls[1..]);
    }
  }

  /** From factory-new on, over any sequence of calls and restarts, where each call may take its name and
      its credentials from the spans of any user, every index reads as the map says. */
  lemma {:induction false} StoreIsAMap(width: RowWidth, p: LockParams, calls: seq<Call>)
    requires InitAccepts(p)
    ensures Consistent(width, p, System(FreshRam(width), EMPTY_FLASH))
    ensures var end := PerformedAll(width, p, System(FreshRam(width), EMPTY_FLASH), calls);
      && WellFormed(width, end.ram)
      && forall index :: 1 <= index <= MAX_USERS ==>
           UserAt(width, end.ram, index - 1) == MapUser(MapPerformedAll(width, p, map[], calls), index)
  {
    FactoryNewIsConsistent(width, p);
    RepresentsAll(width, p, System(FreshRam(width), EMPTY_FLASH), map[], calls);
  }

  // ---- The class under any sequence of calls

  /** One call as a caller makes it: look up the users whose spans it wants, then set. */
  method Perform(store: Users, call: Call) returns (after: Users)
    requires store.Valid()
    modifies store, store.mLockUsers, store.mUserNames, store.mCredentials
    ensures after.Valid() && after.width == store.width && after.params == store.params
    ensures after == store
            || (fresh(after) && fresh(after.mLockUsers) && fresh(after.mUserNames) && fresh(after.mCredentials))
    ensures System(after.Ram(), after.flash)
            == Performed(store.width, store.params, old(System(store.Ram(), store.flash)), call)
  {
    if call.Restart? {
      after := new Users.ReadConfigValues(store.width, store.params, store.flash);
      return after;
    }
    var ok, e := Prepare(store, call);
    if ok {
      ok := SetInStore(store, e);
    }
    return store;
  }

  /** The lookups before the call. */
  method Prepare(store: Users, call: Call) returns (ok: bool, e: UserEntry)
    requires store.Valid() && !call.Restart?
    ensures (if ok then Some(e) else None) == EntryOf(store.width, store.Ram(), call)
  {
    if call.HandBack? {
      var found, user, name, credentials := store.GetUser(call.index);
      ok := found && user.User?;
      e := if ok then
             UserEntry(call.index, user.createdBy, user.lastModifiedBy, name, user.uniqueId, user.status,
                       user.userType, user.rule, credentials)
           else
             UserEntry(0, 0, 0, name, 0, AvailableUser, 0, 0, credentials);
    } else {
      var gotName, name := FetchName(store, call.name);
      var gotCredentials, credentials := FetchCredentials(store, call.credentials);
      ok := gotName && gotCredentials;
      e := UserEntry(call.index, call.creator, call.modifier, name, call.uniqueId, call.status,
                     call.userType, call.rule, credentials);
    }
  }

  method FetchName(store: Users, choice: NameChoice) returns (ok: bool, name: NameSource)
    requires store.Valid()
    ensures (if ok then Some(name) else None) == NameAtHand(store.width, store.Ram(), choice)
  {
    match choice {
      case NewName(chars) => return true, GivenName(chars);
      case NameOfUser(index) =>
        var found, user, span, _ := store.GetUser(index);
        return found && user.User?, span;
    }
  }

  method FetchCredentials(store: Users, choice: CredentialChoice) returns (ok: bool, credentials: CredentialSource)
    requires store.Valid()
    ensures (if ok then Some(credentials) else None) == CredentialsAtHand(store.width, store.Ram(), choice)
  {
    match choice {
      case NewCredentials(refs) => return true, GivenCredentials(refs);
      case CredentialsOfUser(index) =>
        var found, user, _, span := store.GetUser(index);
        return found && user.User?, span;
    }
  }

  /** The store driven through any sequence of calls and restarts ends as the run says, so the map
      theorem holds of it. */
  method PerformAll(store: Users, calls: seq<Call>) returns (after: Users)
    requires store.Valid() && Consistent(store.width, store.params, System(store.Ram(), store.flash))
    modifies store, store.mLockUsers, store.mUserNames, store.mCredentials
    ensures after.Valid() && after.width == store.width && after.params == store.params
    ensures System(after.Ram(), after.flash)
            == PerformedAll(store.width, store.params, old(System(store.Ram(), store.flash)), calls)
  {
    after := store;
    ghost var begin := System(store.Ram(), store.flash);
    ghost var width, p := store.width, store.params;
    var i := 0;
    assert calls[0..] == calls;
    while i < |calls|
      invariant 0 <= i <= |calls|
      invariant after.Valid() && after.width == width && after.params == p
      invariant after == store
                || (fresh(after) && fresh(after.mLockUsers) && fresh(after.mUserNames) && fresh(after.mCredentials))
      invariant Consistent(width, p, System(after.Ram(), after.flash))
      invariant PerformedAll(width, p, begin, calls) == PerformedAll(width, p, System(after.Ram(), after.flash), calls[i..])
    {
      PerformedIsConsistent(width, p, System(after.Ram(), after.flash), calls[i]);
      assert calls[i..][0] == calls[i] && calls[i..][1..] == calls[i + 1..];
      after := Perform(after, calls[i]);
      i := i + 1;
    }
  }
}
