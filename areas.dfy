/** The area presence table of the area worker: which users have been seen
    in which area, and for how many update periods each has been idle. */
module Areas {

  /** A user is evicted once it has been idle for more periods than this. */
  const MaxIdlePeriods := 3

  datatype AreaUser = AreaUser(userId: string, time: string, idlePeriods: nat)

  datatype Area = Area(areaId: string, users: map<string, AreaUser>)

  /** Every area and user record is filed under its own id, no area is
      empty, and no user has been idle longer than the limit. */
  ghost predicate WellFormed(areas: map<string, Area>) {
    forall a :: a in areas ==>
      && areas[a].areaId == a
      && areas[a].users != map[]
      && forall u :: u in areas[a].users ==>
           areas[a].users[u].userId == u && areas[a].users[u].idlePeriods <= MaxIdlePeriods
  }

  /** The users of one area after a period: each idle count goes up by one,
      and users whose count then exceeds the limit are gone. */
  function AgedUsers(users: map<string, AreaUser>): map<string, AreaUser> {
    map u | u in users && users[u].idlePeriods + 1 <= MaxIdlePeriods ::
      users[u].(idlePeriods := users[u].idlePeriods + 1)
  }

  /** The table after a period: every area's users aged, and areas left
      without users removed. */
  function AfterPeriod(areas: map<string, Area>): map<string, Area> {
    map a | a in areas && AgedUsers(areas[a].users) != map[] ::
      areas[a].(users := AgedUsers(areas[a].users))
  }

  /** The inner loop of processPeriod over the users of one area. */
  method AgeUsers(users: map<string, AreaUser>) returns (aged: map<string, AreaUser>)
    ensures aged == AgedUsers(users)
  {
    aged := users;
    var pending := users.Keys;
    while pending != {}
      invariant pending <= users.Keys
      invariant aged.Keys <= users.Keys
      invariant forall u :: u in pending ==> u in aged && aged[u] == users[u]
      invariant forall u :: u in users && u !in pending ==>
        (u in aged <==> u in AgedUsers(users)) && (u in aged ==> aged[u] == AgedUsers(users)[u])
      decreases pending
    {
      var u :| u in pending;
      var user := aged[u].(idlePeriods := aged[u].idlePeriods + 1);
      aged := aged[u := user];
      if user.idlePeriods > MaxIdlePeriods {
        aged := aged - {u};
      }
      pending := pending - {u};
    }
  }

  /** The presence table, updated in place by the message handler and by
      the periodic timer. */
  class AreaTable {
    var areas: map<string, Area>

    ghost predicate Valid()
      reads this
    {
      WellFormed(areas)
    }

    constructor ()
      ensures areas == map[] && Valid()
    {
      areas := map[];
    }

    /** updateUser: records that the user was seen in the area at `time`,
        creating the area and the user when absent, and resets the user's
        idle count. Returns the stored user record. */
    method UpdateUser(areaId: string, userId: string, time: string) returns (user: AreaUser)
      modifies this
      ensures areas.Keys == old(areas).Keys + {areaId}
      ensures forall a :: a in old(areas) && a != areaId ==> areas[a] == old(areas)[a]
      ensures areas[areaId].areaId == (if areaId in old(areas) then old(areas)[areaId].areaId else areaId)
      ensures var before := if areaId in old(areas) then old(areas)[areaId].users else map[];
        && areas[areaId].users.Keys == before.Keys + {userId}
        && (forall u :: u in before && u != userId ==> areas[areaId].users[u] == before[u])
        && user.userId == (if userId in before then before[userId].userId else userId)
      ensures areas[areaId].users[userId] == user
      ensures user.time == time && user.idlePeriods == 0
      ensures old(Valid()) ==> Valid()
    {
      ghost var wasValid := Valid();
      ghost var before := areas;
      var area: Area;
      if areaId in areas {
        area := areas[areaId];
      } else {
        area := Area(areaId, map[]);
      }
      areas := areas[areaId := area];
      if userId in area.users {
        user := area.users[userId];
      } else {
        user := AreaUser(userId, time, 0);
      }
      user := user.(time := time, idlePeriods := 0);
      area := area.(users := area.users[userId := user]);
      areas := areas[areaId := area];
      if wasValid {
        StoreKeepsWellFormed(before, areaId, area);
      }
    }

    /** processPeriod: ages every user of every area, evicting users idle for
        too long and then areas left empty. */
    method ProcessPeriod()
      modifies this
      ensures areas == AfterPeriod(old(areas))
      ensures old(Valid()) ==> Valid()
    {
      ghost var start := areas;
      var pending := areas.Keys;
      assert areas == PeriodUpTo(start, pending);
      while pending != {}
        invariant pending <= start.Keys
        invariant areas == PeriodUpTo(start, pending)
        decreases pending
      {
        var a :| a in pending;
        var area := areas[a];
        var users := AgeUsers(area.users);
        PeriodStep(start, pending, a);
        if |users| > 0 {
          areas := areas[a := area.(users := users)];
        } else {
          areas := areas - {a};
        }
        pending := pending - {a};
      }
      assert areas == AfterPeriod(start);
      PeriodPreservesWellFormed(start);
    }
  }

  /** The table part way through a period: the areas still pending are as
      they were, the others as the period leaves them. */
  ghost function PeriodUpTo(start: map<string, Area>, pending: set<string>): map<string, Area> {
    map a | a in start && (a in pending || a in AfterPeriod(start)) ::
      if a in pending then start[a] else AfterPeriod(start)[a]
  }

  /** Processing one pending area moves the table one step on. */
  lemma PeriodStep(start: map<string, Area>, pending: set<string>, a: string)
    requires a in pending && pending <= start.Keys
    ensures var table := PeriodUpTo(start, pending);
      var users := AgedUsers(start[a].users);
      && a in table && table[a] == start[a]
      && PeriodUpTo(start, pending - {a}) ==
           if |users| > 0 then table[a := start[a].(users := users)] else table - {a}
  {
    var users := AgedUsers(start[a].users);
    assert |users| > 0 <==> users != map[] by {
      if users != map[] {
        var u :| u in users;
      }
    }
  }

  /** Storing an area record filed under its own id, non-empty and with
      well-formed users, keeps the table well formed. */
  lemma StoreKeepsWellFormed(areas: map<string, Area>, areaId: string, area: Area)
    requires WellFormed(areas)
    requires area.areaId == areaId && area.users != map[]
    requires forall u :: u in area.users ==>
      area.users[u].userId == u && area.users[u].idlePeriods <= MaxIdlePeriods
    ensures WellFormed(areas[areaId := area])
  {
  }

  /** A user present before a period is still present afterwards exactly when
      its incremented idle count stays within the limit, and then that count
      is one more than before. */
  lemma PeriodAgesUsers(areas: map<string, Area>, a: string, u: string)
    requires a in areas && u in areas[a].users
    ensures var after := AfterPeriod(areas);
      (a in after && u in after[a].users) <==> areas[a].users[u].idlePeriods + 1 <= MaxIdlePeriods
    ensures var after := AfterPeriod(areas);
      a in after && u in after[a].users ==>
        after[a].users[u] == areas[a].users[u].(idlePeriods := areas[a].users[u].idlePeriods + 1)
  {
    var after := AfterPeriod(areas);
    if areas[a].users[u].idlePeriods + 1 <= MaxIdlePeriods {
      assert u in AgedUsers(areas[a].users);
    }
  }

  /** After a period no area is empty, and an area is gone exactly when all
      of its users were evicted. */
  lemma PeriodRemovesEmptyAreas(areas: map<string, Area>)
    ensures forall a :: a in AfterPeriod(areas) ==> AfterPeriod(areas)[a].users != map[]
    ensures forall a :: a in areas ==>
      (a !in AfterPeriod(areas) <==>
        forall u :: u in areas[a].users ==> areas[a].users[u].idlePeriods + 1 > MaxIdlePeriods)
    ensures AfterPeriod(areas).Keys <= areas.Keys
  {
    forall a | a in areas
      ensures a !in AfterPeriod(areas) <==>
        forall u :: u in areas[a].users ==> areas[a].users[u].idlePeriods + 1 > MaxIdlePeriods
    {
      AllEvicted(areas[a].users);
    }
  }

  lemma AllEvicted(users: map<string, AreaUser>)
    ensures AgedUsers(users) == map[] <==>
      forall u :: u in users ==> users[u].idlePeriods + 1 > MaxIdlePeriods
  {
    if forall u :: u in users ==> users[u].idlePeriods + 1 > MaxIdlePeriods {
      assert AgedUsers(users).Keys == {};
    } else {
      var u :| u in users && users[u].idlePeriods + 1 <= MaxIdlePeriods;
      assert u in AgedUsers(users);
    }
  }

  /** A period keeps the table well formed; afterwards every remaining user
      has an idle count between 1 and the limit. */
  lemma PeriodPreservesWellFormed(areas: map<string, Area>)
    ensures WellFormed(areas) ==> WellFormed(AfterPeriod(areas))
    ensures forall a, u :: a in AfterPeriod(areas) && u in AfterPeriod(areas)[a].users ==>
      1 <= AfterPeriod(areas)[a].users[u].idlePeriods <= MaxIdlePeriods
  {
  }
}
