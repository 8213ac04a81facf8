/** Create/read/update/delete of campaign activities over the Activities
    table, keyed by Guid. */
module ActivityService {
  import opened Wrappers
  import opened Entities
  import opened Dtos
  import opened DotNetText
  import Tables

  /** Rebuilds the row a payload was mapped from. */
  function ToActivity(d: ActivityDto): Activity {
    Activity(d.id, d.name, d.fromAddress, d.toEmailAddress, d.fromName,
             d.createdDate, d.bouncedDate, d.openedDate, d.sentDate)
  }

  /** Copy of all nine columns into the payload; nothing is lost. */
  function MapToDto(a: Activity): (d: ActivityDto)
    ensures ToActivity(d) == a
  {
    ActivityDto(a.id, a.name, a.fromAddress, a.toEmailAddress, a.fromName,
                a.createdDate, a.bouncedDate, a.openedDate, a.sentDate)
  }

  /** The payload is present and none of the four strings is null, empty or
      white space only. */
  predicate ValidNewActivity(dto: Option<AddActivityDto>) {
    && dto.Some?
    && !IsNullOrWhiteSpace(dto.value.name)
    && !IsNullOrWhiteSpace(dto.value.fromAddress)
    && !IsNullOrWhiteSpace(dto.value.toEmailAddress)
    && !IsNullOrWhiteSpace(dto.value.fromName)
  }

  /** Only the Activities table may differ. */
  predicate OthersUnchanged(db: Db, db': Db) {
    db'.customers == db.customers && db'.products == db.products && db'.orders == db.orders
  }

  /** Inserts an activity under the fresh Guid `id`, stamped with two
      readings of the UTC clock (`createdAt` then `sentAt`), and commits.
      The payload's own creation date is ignored. */
  function Create(db: Db, dto: Option<AddActivityDto>, id: Guid, createdAt: DateTime,
                  sentAt: DateTime, rowsAffected: nat): (r: Outcome<Option<ActivityDto>>)
    requires id !in db.activities
    ensures r.saved <==> ValidNewActivity(dto)
    ensures !r.saved ==> r.db == db && r.result == None
    ensures r.saved ==>
      && r.db.activities.Keys == db.activities.Keys + {id}
      && Tables.AgreeExcept(db.activities, r.db.activities, id)
      && var a := r.db.activities[id];
         && a.name == dto.value.name && a.fromAddress == dto.value.fromAddress
         && a.toEmailAddress == dto.value.toEmailAddress && a.fromName == dto.value.fromName
         && a.createdDate == createdAt && a.sentDate == Some(sentAt)
         && a.openedDate == None && a.bouncedDate == None
    ensures OthersUnchanged(db, r.db)
    ensures r.result.Some? <==> r.saved && rowsAffected > 0
    ensures r.result.Some? ==> ToActivity(r.result.value) == r.db.activities[id]
  {
    if !ValidNewActivity(dto) then
      Outcome(None, db, false)
    else
      var d := dto.value;
      var a := Activity(id, d.name, d.fromAddress, d.toEmailAddress, d.fromName,
                        createdAt, None, None, Some(sentAt));
      Outcome(if rowsAffected > 0 then Some(MapToDto(a)) else None,
              db.(activities := db.activities[id := a]), true)
  }

  /** Removes the activity with that id, if any; success is what the commit
      reports. */
  function Delete(db: Db, id: Guid, rowsAffected: nat): (r: Outcome<bool>)
    ensures r.saved <==> id in db.activities
    ensures r.result <==> id in db.activities && rowsAffected > 0
    ensures !r.saved ==> r.db == db
    ensures r.db.activities.Keys == db.activities.Keys - {id}
    ensures Tables.AgreeExcept(db.activities, r.db.activities, id)
    ensures OthersUnchanged(db, r.db)
  {
    if id !in db.activities then
      Outcome(false, db, false)
    else
      Outcome(rowsAffected > 0, db.(activities := db.activities - {id}), true)
  }

  /** One payload per stored activity, in storage order. */
  method GetAll(db: Db) returns (all: seq<ActivityDto>)
    ensures |all| == |db.activities|
    ensures forall i :: 0 <= i < |all| ==>
      all[i].id in db.activities && ToActivity(all[i]) == db.activities[all[i].id]
    ensures forall id :: id in db.activities ==> exists i :: 0 <= i < |all| && all[i].id == id
    ensures forall i, j :: 0 <= i < j < |all| ==> all[i].id != all[j].id
  {
    var rows := Tables.Rows(db.activities);
    all := seq(|rows|, i requires 0 <= i < |rows| => MapToDto(rows[i].1));
    forall id | id in db.activities ensures exists i :: 0 <= i < |all| && all[i].id == id {
      var i :| 0 <= i < |rows| && rows[i].0 == id;
      assert all[i].id == id;
    }
  }

  /** The activity with that id as a payload, or null. */
  function GetById(db: Db, id: Guid): (r: Option<ActivityDto>)
    ensures r.Some? <==> id in db.activities
    ensures r.Some? ==> r.value.id == id && ToActivity(r.value) == db.activities[id]
  {
    if id in db.activities then Some(MapToDto(db.activities[id])) else None
  }

  /** The row after a partial update: each string column takes the payload's
      value unless that is null; both engagement dates are overwritten. */
  function Patched(a: Activity, u: UpdateActivityDto): (a': Activity)
    ensures a'.id == a.id && a'.createdDate == a.createdDate && a'.sentDate == a.sentDate
    ensures a'.name == (if u.name.Some? then u.name else a.name)
    ensures a'.fromAddress == (if u.fromAddress.Some? then u.fromAddress else a.fromAddress)
    ensures a'.toEmailAddress == (if u.toEmailAddress.Some? then u.toEmailAddress else a.toEmailAddress)
    ensures a'.fromName == (if u.fromName.Some? then u.fromName else a.fromName)
    ensures a'.bouncedDate == u.bouncedDate && a'.openedDate == u.openedDate
  {
    a.(name := u.name.Or(a.name),
       fromAddress := u.fromAddress.Or(a.fromAddress),
       toEmailAddress := u.toEmailAddress.Or(a.toEmailAddress),
       fromName := u.fromName.Or(a.fromName),
       bouncedDate := u.bouncedDate,
       openedDate := u.openedDate)
  }

  /** Applies a partial update to an existing activity and commits. */
  function Update(db: Db, id: Guid, dto: UpdateActivityDto): (r: Outcome<Option<ActivityDto>>)
    ensures r.saved <==> id in db.activities
    ensures r.result.Some? <==> r.saved
    ensures !r.saved ==> r.db == db
    ensures r.db.activities.Keys == db.activities.Keys
    ensures Tables.AgreeExcept(db.activities, r.db.activities, id)
    ensures r.saved ==> r.db.activities[id] == Patched(db.activities[id], dto)
    ensures r.saved ==> ToActivity(r.result.value) == r.db.activities[id]
    ensures OthersUnchanged(db, r.db)
  {
    if id !in db.activities then
      Outcome(None, db, false)
    else
      var a := Patched(db.activities[id], dto);
      Outcome(Some(MapToDto(a)), db.(activities := db.activities[id := a]), true)
  }

  /** Reading back a freshly created activity yields the payload the
      creation returned. */
  lemma CreateThenGet(db: Db, dto: Option<AddActivityDto>, id: Guid, createdAt: DateTime,
                      sentAt: DateTime, rowsAffected: nat)
    requires id !in db.activities
    ensures var r := Create(db, dto, id, createdAt, sentAt, rowsAffected);
      r.result.Some? ==> GetById(r.db, id) == r.result
  {
  }

  /** Deleting what was just created restores the store; the result is
      what the delete's own commit reports. */
  lemma CreateThenDelete(db: Db, dto: Option<AddActivityDto>, id: Guid, createdAt: DateTime,
                         sentAt: DateTime, rowsAffected: nat, deleted: nat)
    requires id !in db.activities
    ensures var r := Create(db, dto, id, createdAt, sentAt, rowsAffected);
      r.saved ==> Delete(r.db, id, deleted) == Outcome(deleted > 0, db, true)
  {
    var r := Create(db, dto, id, createdAt, sentAt, rowsAffected);
    if r.saved {
      assert r.db.activities - {id} == db.activities;
    }
  }

  /** Reading back an updated activity yields the payload the update
      returned. */
  lemma UpdateThenGet(db: Db, id: Guid, dto: UpdateActivityDto)
    ensures var r := Update(db, id, dto);
      r.saved ==> GetById(r.db, id) == r.result
  {
  }

  /** Applying the same partial update twice is the same as applying it once. */
  lemma UpdateIdempotent(db: Db, id: Guid, dto: UpdateActivityDto)
    ensures var r := Update(db, id, dto);
      Update(r.db, id, dto).db == r.db
  {
    var r := Update(db, id, dto);
    if id in db.activities {
      assert r.db.activities[id := Patched(r.db.activities[id], dto)] == r.db.activities;
    }
  }

  /** A payload whose strings are all null and whose dates repeat the stored
      ones leaves the row as it was; a null date, on the other hand, clears
      the stored one. */
  lemma NullStringsKeepRow(a: Activity, bounced: Option<DateTime>)
    ensures Patched(a, UpdateActivityDto(None, None, None, None, a.bouncedDate, a.openedDate)) == a
    ensures Patched(a, UpdateActivityDto(None, None, None, None, None, a.openedDate)).bouncedDate == None
  {
  }

  /** An empty string is not null, so it does overwrite. */
  lemma EmptyStringOverwrites(a: Activity)
    ensures Patched(a, UpdateActivityDto(Some(""), None, None, None, None, None)).name == Some("")
  {
  }

  /** A name made of spaces is refused here although the customer and
      product services would accept it. */
  lemma WhiteSpaceNameRefused(d: AddActivityDto)
    requires d.name == Some("  ")
    ensures !ValidNewActivity(Some(d))
    ensures !IsNullOrEmpty(d.name)
  {
    assert IsWhiteSpace(d.name.value[0]) && IsWhiteSpace(d.name.value[1]);
  }
}
