/**
 * The rally server's participant table (Wristband_Main/server.py): the
 * `participants` SQLite table as a map from tag id to its row, the three
 * POST handlers that insert and update rows, and the statistics query.
 */
module RallyServer {
  import opened Wrappers

  /** The table's primary key, treated as an opaque string. */
  type TagId = string

  /** A datetime.now().isoformat() value, supplied by the caller. */
  type Timestamp = string

  const Ok: int := 200
  const Created: int := 201
  const BadRequest: int := 400
  const NotFound: int := 404

  /** The stations the flag columns exist for. */
  predicate IsStation(station: int)
  {
    1 <= station <= 3
  }

  /** One row of `participants`; NULL columns are None. */
  datatype Participant = Participant(
    registeredAt: Timestamp,
    flag1: bool,
    flag2: bool,
    flag3: bool,
    email: Option<string>,
    finishTime: Option<Timestamp>)
  {
    /** The column flag{station}. */
    predicate HasFlag(station: int)
      requires IsStation(station)
    {
      if station == 1 then flag1 else if station == 2 then flag2 else flag3
    }
  }

  /** A key of a JSON request body: missing, present as null, or present with a value. */
  datatype Field<T> = Absent | Null | Value(value: T)

  /** The row `register` inserts: only tag_id and registered_at are given, the rest take their defaults. */
  function NewParticipant(now: Timestamp): (p: Participant)
    ensures p.registeredAt == now && p.email == None && p.finishTime == None
    ensures forall station | IsStation(station) :: !p.HasFlag(station)
  {
    Participant(now, false, false, false, None, None)
  }

  /** The row after `UPDATE ... SET flag{station}=TRUE, finish_time=?`. */
  function WithFlag(p: Participant, station: int, now: Timestamp): (q: Participant)
    requires IsStation(station)
    ensures q.HasFlag(station)
    ensures forall other | IsStation(other) && other != station :: q.HasFlag(other) == p.HasFlag(other)
    ensures q.registeredAt == p.registeredAt && q.email == p.email && q.finishTime == Some(now)
  {
    if station == 1 then p.(flag1 := true, finishTime := Some(now))
    else if station == 2 then p.(flag2 := true, finishTime := Some(now))
    else p.(flag3 := true, finishTime := Some(now))
  }

  /** The row after `UPDATE ... SET email=?, finish_time=?`. */
  function WithEmail(p: Participant, email: Option<string>, now: Timestamp): (q: Participant)
    ensures forall station | IsStation(station) :: q.HasFlag(station) == p.HasFlag(station)
    ensures q.registeredAt == p.registeredAt && q.email == email && q.finishTime == Some(now)
  {
    p.(email := email, finishTime := Some(now))
  }

  /** Collecting a flag twice leaves the row as collecting it once, at the later time. */
  lemma WithFlagIdempotent(p: Participant, station: int, first: Timestamp, second: Timestamp)
    requires IsStation(station)
    ensures WithFlag(WithFlag(p, station, first), station, second) == WithFlag(p, station, second)
  {
  }

  /** The database; its one table is the map `participants`. */
  class Rally {
    var participants: map<TagId, Participant>

    /** create_database on a new database file: the table starts empty. */
    constructor ()
      ensures participants == map[]
    {
      participants := map[];
    }

    /**
     * register_participant: 400 without a tag_id, 400 (IntegrityError) for a
     * tag_id already present, otherwise 201 and a new row.
     */
    method RegisterParticipant(tagId: Option<TagId>, now: Timestamp) returns (status: int)
      modifies this
      ensures tagId.None? ==> status == BadRequest && participants == old(participants)
      ensures tagId.Some? && tagId.value in old(participants) ==>
        status == BadRequest && participants == old(participants)
      ensures tagId.Some? && tagId.value !in old(participants) ==>
        status == Created && participants == old(participants)[tagId.value := NewParticipant(now)]
    {
      if tagId.None? {
        return BadRequest;
      }
      if tagId.value in participants {
        return BadRequest;
      }
      participants := participants[tagId.value := NewParticipant(now)];
      status := Created;
    }

    /**
     * collect_flag: 400 for a station outside 1..3, 404 when no row has the
     * tag id (rowcount 0), otherwise 200 with flag{station} and finish_time set.
     */
    method CollectFlag(tagId: TagId, station: int, now: Timestamp) returns (status: int)
      modifies this
      ensures !IsStation(station) ==> status == BadRequest && participants == old(participants)
      ensures IsStation(station) && tagId !in old(participants) ==>
        status == NotFound && participants == old(participants)
      ensures IsStation(station) && tagId in old(participants) ==>
        status == Ok && participants == old(participants)[tagId := WithFlag(old(participants)[tagId], station, now)]
    {
      if !IsStation(station) {
        return BadRequest;
      }
      if tagId !in participants {
        return NotFound;
      }
      participants := participants[tagId := WithFlag(participants[tagId], station, now)];
      status := Ok;
    }

    /**
     * submit_email: 400 without an email key, 404 when no row has the tag id,
     * otherwise 200 with email and finish_time set, returning the row's
     * registered_at. An email given as null is stored as NULL.
     */
    method SubmitEmail(tagId: TagId, email: Field<string>, now: Timestamp)
      returns (status: int, registeredAt: Option<Timestamp>)
      modifies this
      ensures email.Absent? ==> status == BadRequest && registeredAt == None && participants == old(participants)
      ensures !email.Absent? && tagId !in old(participants) ==>
        status == NotFound && registeredAt == None && participants == old(participants)
      ensures !email.Absent? && tagId in old(participants) ==>
        && status == Ok
        && registeredAt == Some(old(participants)[tagId].registeredAt)
        && participants == old(participants)[tagId := WithEmail(old(participants)[tagId], Stored(email), now)]
    {
      if email.Absent? {
        return BadRequest, None;
      }
      if tagId !in participants {
        return NotFound, None;
      }
      var row := participants[tagId];
      participants := participants[tagId := WithEmail(row, Stored(email), now)];
      status, registeredAt := Ok, Some(row.registeredAt);
    }
  }

  /** The column value a present JSON field is stored as. */
  function Stored(f: Field<string>): (v: Option<string>)
    requires !f.Absent?
    ensures v.None? <==> f.Null?
    ensures f.Value? ==> v == Some(f.value)
  {
    if f.Null? then None else Some(f.value)
  }

  /** The rows whose flag{station} is true. */
  function FlagHolders(table: map<TagId, Participant>, station: int): (holders: set<TagId>)
    requires IsStation(station)
    ensures holders <= table.Keys
  {
    set t | t in table && table[t].HasFlag(station)
  }

  /** The rows whose email is not NULL. */
  function EmailHolders(table: map<TagId, Participant>): (holders: set<TagId>)
    ensures holders <= table.Keys
  {
    set t | t in table && table[t].email.Some?
  }

  /** The row get_statistics returns; a SUM over no rows is NULL (None). */
  datatype Stats = Stats(
    totalParticipants: nat,
    flag1: Option<nat>,
    flag2: Option<nat>,
    flag3: Option<nat>,
    emailSubmissions: Option<nat>)
  {
    function FlagCount(station: int): Option<nat>
      requires IsStation(station)
    {
      if station == 1 then flag1 else if station == 2 then flag2 else flag3
    }
  }

  /** SUM(CASE WHEN ... THEN 1 ELSE 0 END): NULL on an empty table, otherwise the count. */
  function Sum(table: map<TagId, Participant>, count: nat): (sum: Option<nat>)
    ensures sum.None? <==> |table| == 0
    ensures sum.Some? ==> sum.value == count
  {
    if table == map[] then None else Some(count)
  }

  /** get_statistics: COUNT(*) and the four SUMs over the table. */
  function Statistics(table: map<TagId, Participant>): (s: Stats)
    ensures s.totalParticipants == |table|
    ensures forall station | IsStation(station) ::
      s.FlagCount(station) == Sum(table, |FlagHolders(table, station)|)
    ensures s.emailSubmissions == Sum(table, |EmailHolders(table)|)
  {
    Stats(|table|,
          Sum(table, |FlagHolders(table, 1)|),
          Sum(table, |FlagHolders(table, 2)|),
          Sum(table, |FlagHolders(table, 3)|),
          Sum(table, |EmailHolders(table)|))
  }

  /**
   * The SUMs are NULL exactly on an empty table, and every count is at most
   * the number of participants.
   */
  lemma StatisticsBounds(table: map<TagId, Participant>)
    ensures var s := Statistics(table);
      && (table == map[] <==> s.emailSubmissions.None?)
      && (forall station | IsStation(station) :: table == map[] <==> s.FlagCount(station).None?)
      && (forall station | IsStation(station) && s.FlagCount(station).Some? ::
            s.FlagCount(station).value <= s.totalParticipants)
      && (s.emailSubmissions.Some? ==> s.emailSubmissions.value <= s.totalParticipants)
  {
    forall station | IsStation(station)
      ensures |FlagHolders(table, station)| <= |table|
    {
      SubsetCard(FlagHolders(table, station), table);
    }
    SubsetCard(EmailHolders(table), table);
  }

  /** A set of keys of the table has at most as many elements as the table has rows. */
  lemma SubsetCard(keys: set<TagId>, table: map<TagId, Participant>)
    requires keys <= table.Keys
    ensures |keys| <= |table|
  {
    SubsetCardinality(keys, table.Keys);
  }

  lemma {:induction false} SubsetCardinality<T>(a: set<T>, b: set<T>)
    requires a <= b
    ensures |a| <= |b|
    decreases a
  {
    if a != {} {
      var x :| x in a;
      SubsetCardinality(a - {x}, b - {x});
    }
  }

  /** The number a SUM stands for, NULL read as 0. */
  function OrZero(n: Option<nat>): nat
  {
    if n.None? then 0 else n.value
  }

  /** Registering a new tag adds one participant and leaves every flag and email count as it was. */
  lemma StatisticsAfterRegister(table: map<TagId, Participant>, tagId: TagId, now: Timestamp)
    requires tagId !in table
    ensures var before, after := Statistics(table), Statistics(table[tagId := NewParticipant(now)]);
      && after.totalParticipants == before.totalParticipants + 1
      && (forall station | IsStation(station) :: after.FlagCount(station) == Some(OrZero(before.FlagCount(station))))
      && after.emailSubmissions == Some(OrZero(before.emailSubmissions))
  {
    var t := table[tagId := NewParticipant(now)];
    forall station | IsStation(station)
      ensures FlagHolders(t, station) == FlagHolders(table, station)
    {
    }
    assert EmailHolders(t) == EmailHolders(table);
  }

  /**
   * Collecting a flag at a station counts the participant for that station
   * if they did not yet hold it, and changes no other count.
   */
  lemma StatisticsAfterCollect(table: map<TagId, Participant>, tagId: TagId, station: int, now: Timestamp)
    requires tagId in table && IsStation(station)
    ensures var before, after := Statistics(table), Statistics(table[tagId := WithFlag(table[tagId], station, now)]);
      && after.totalParticipants == before.totalParticipants
      && after.FlagCount(station).Some?
      && after.FlagCount(station).value
         == before.FlagCount(station).value + (if table[tagId].HasFlag(station) then 0 else 1)
      && (forall other | IsStation(other) && other != station :: after.FlagCount(other) == before.FlagCount(other))
      && after.emailSubmissions == before.emailSubmissions
  {
    var t := table[tagId := WithFlag(table[tagId], station, now)];
    assert t.Keys == table.Keys;
    if table[tagId].HasFlag(station) {
      assert FlagHolders(t, station) == FlagHolders(table, station);
    } else {
      assert FlagHolders(t, station) == FlagHolders(table, station) + {tagId};
    }
    forall other | IsStation(other) && other != station
      ensures FlagHolders(t, other) == FlagHolders(table, other)
    {
    }
    assert EmailHolders(t) == EmailHolders(table);
  }

  /**
   * Submitting an email counts the participant as an email submission
   * exactly when the stored email is not NULL, and changes no other count.
   */
  lemma StatisticsAfterEmail(table: map<TagId, Participant>, tagId: TagId, email: Option<string>, now: Timestamp)
    requires tagId in table
    ensures var before, after := Statistics(table), Statistics(table[tagId := WithEmail(table[tagId], email, now)]);
      && after.totalParticipants == before.totalParticipants
      && (forall station | IsStation(station) :: after.FlagCount(station) == before.FlagCount(station))
      && after.emailSubmissions.Some?
      && after.emailSubmissions.value + (if table[tagId].email.Some? then 1 else 0)
         == before.emailSubmissions.value + (if email.Some? then 1 else 0)
  {
    var t := table[tagId := WithEmail(table[tagId], email, now)];
    assert t.Keys == table.Keys;
    forall station | IsStation(station)
      ensures FlagHolders(t, station) == FlagHolders(table, station)
    {
    }
    var rest := EmailHolders(table) - {tagId};
    assert EmailHolders(t) == if email.Some? then rest + {tagId} else rest;
    assert EmailHolders(table) == if table[tagId].email.Some? then rest + {tagId} else rest;
  }
}
