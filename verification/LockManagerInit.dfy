/** What the limits of LockManager::Init are for: parameters are accepted exactly if every table of the lock
    manager has room for what they announce, and then all tables can be booted with them. */
module LockManagerInit {
  import opened DoorLockTypes
  import CredentialStore
  import opened ScheduleStore
  import opened UserStore

  /** Users have rows, their credentials have indices, and the schedules in use are within the tables: rows for
      users in two of them, a single one for holidays. */
  ghost predicate TablesHaveRoom(width: RowWidth, layout: Layout, p: LockParams) {
    var rows := |UserStore.FreshRam(width).records|;
    && p.numberOfUsers <= rows
    && (forall index: UInt16 :: 1 <= index <= p.numberOfCredentialsPerUser ==>
          CredentialStore.IsKey(CredentialStore.PIN, index))
    && Shape(layout, rows, p.numberOfUsers, p.numberOfWeekdaySchedulesPerUser).Valid()
    && Shape(layout, rows, p.numberOfUsers, p.numberOfYeardaySchedulesPerUser).Valid()
    && Shape(layout, 1, 1, p.numberOfHolidaySchedules).Valid()
  }

  /** The limits are the sizes of the tables, ten of each, all reached. */
  lemma LimitsAreTheTables(width: RowWidth, layout: Layout, p: LockParams)
    requires layout.Valid()
    ensures InitAccepts(p) <==> TablesHaveRoom(width, layout, p)
    ensures InitAccepts(p) <==>
            && p.numberOfUsers <= 10 && p.numberOfCredentialsPerUser <= 10
            && p.numberOfWeekdaySchedulesPerUser <= 10 && p.numberOfYeardaySchedulesPerUser <= 10
            && p.numberOfHolidaySchedules <= 10
    ensures InitAccepts(LockParams(10, 10, 10, 10, 10))
  {
    if p.numberOfCredentialsPerUser > 10 {
      assert !CredentialStore.IsKey(CredentialStore.PIN, 11);
    }
  }

  /** Init and the first boot of the tables that depend on its parameters. */
  method Start(width: RowWidth, weekdayLayout: Layout, yeardayLayout: Layout, holidayLayout: Layout, params: LockParams)
    returns (error: InitError, users: Users?, weekday: ScheduleTable?, yearday: ScheduleTable?, holiday: ScheduleTable?)
    requires weekdayLayout.Valid() && yeardayLayout.Valid() && holidayLayout.Valid()
    ensures error.NoError? <==> TablesHaveRoom(width, weekdayLayout, params)
    ensures error.NoError? <==> users != null && weekday != null && yearday != null && holiday != null
    ensures error.NoError? ==>
              && users.Valid() && users.params == params && users.Ram() == UserStore.FreshRam(width)
              && weekday.Valid() && weekday.View() == Shape(weekdayLayout, 10, params.numberOfUsers, params.numberOfWeekdaySchedulesPerUser)
              && yearday.Valid() && yearday.View() == Shape(yeardayLayout, 10, params.numberOfUsers, params.numberOfYeardaySchedulesPerUser)
              && holiday.Valid() && holiday.View() == Shape(holidayLayout, 1, 1, params.numberOfHolidaySchedules)
  {
    LimitsAreTheTables(width, weekdayLayout, params);
    weekday, yearday, holiday := null, null, null;
    error, users := UserStore.Init(width, params, EMPTY_FLASH);
    if error.NoError? {
      weekday := new ScheduleTable(weekdayLayout, MAX_USERS, params.numberOfUsers, params.numberOfWeekdaySchedulesPerUser);
      yearday := new ScheduleTable(yeardayLayout, MAX_USERS, params.numberOfUsers, params.numberOfYeardaySchedulesPerUser);
      holiday := new ScheduleTable(holidayLayout, 1, 1, params.numberOfHolidaySchedules);
    }
  }
}
