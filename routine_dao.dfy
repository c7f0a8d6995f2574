/** The routine store: the `routines` and `routine_exercises` tables as mutable fields, the
    exercise catalog and the users table as read-only ones. Each write of the store is a method
    proved against the pure description of its effect in `Tables`; each read is a function over
    the current tables, described in `Queries`. */
module RoutineDao {
  import opened Tables
  import opened Queries

  class RoutineStore {
    const catalog: Catalog
    const users: Users
    var routines: seq<Routine>
    var routineExercises: seq<RoutineExercise>
    /** The auto-increment counters of the two tables. */
    var nextRoutineId: nat
    var nextRowId: nat

    ghost predicate Valid()
      reads this
    {
      TablesValid(catalog, users, routines, routineExercises, nextRoutineId, nextRowId)
    }

    /** Empty tables over a given catalog and users table. */
    constructor (catalog: Catalog, users: Users)
      ensures Valid()
      ensures this.catalog == catalog && this.users == users
      ensures routines == [] && routineExercises == []
      ensures nextRoutineId == 1 && nextRowId == 1
    {
      this.catalog := catalog;
      this.users := users;
      routines := [];
      routineExercises := [];
      nextRoutineId := 1;
      nextRowId := 1;
    }

    // -------------------------------------------------------------------------------------
    // Writes

    /** One transaction: insert the routine row, then one join row per exercise id referring to
        the new routine id. On success both inserts are committed and the new id (`insertId`) is
        returned; if either insert fails, the transaction is rolled back, both tables are as they
        were, and the result is `false` (here `None`). The auto-increment counters are not rolled
        back, as in InnoDB. */
    method CreateRoutineInTransaction(userId: int, isCustom: int, exerciseIds: seq<int>,
                                      routineName: Option<string>, now: nat)
      returns (result: Option<nat>)
      requires Valid()
      modifies this
      ensures Valid()
      ensures result.Some? <==> CreateAccepted(catalog, users, userId, exerciseIds)
      ensures result.Some? ==>
                result.value == old(nextRoutineId)
                && routines == old(routines) + [Routine(result.value, userId, isCustom, routineName, now, None)]
                && routineExercises == old(routineExercises) + LinkRows(result.value, old(nextRowId), exerciseIds)
                && nextRoutineId == old(nextRoutineId) + 1
                && nextRowId == old(nextRowId) + |exerciseIds|
                && Filter(routineExercises, InRoutine(result.value)) == LinkRows(result.value, old(nextRowId), exerciseIds)
      ensures result.None? ==>
                routines == old(routines) && routineExercises == old(routineExercises)
                && nextRoutineId >= old(nextRoutineId) && nextRowId >= old(nextRowId)
    {
      // START TRANSACTION: what ROLLBACK returns to.
      var savedRoutines, savedLinks := routines, routineExercises;
      ghost var savedNextRoutineId, savedNextRowId := nextRoutineId, nextRowId;

      // INSERT INTO routines: the foreign key on user_id must hold.
      if userId !in users {
        result := None;
        return;
      }
      var insertId := nextRoutineId;
      routines := routines + [Routine(insertId, userId, isCustom, routineName, now, None)];
      nextRoutineId := nextRoutineId + 1;

      // INSERT INTO routine_exercises VALUES (insertId, id), ...: one statement over all ids.
      var ok := InsertExerciseRows(insertId, exerciseIds);
      if !ok {
        // ROLLBACK
        routines, routineExercises := savedRoutines, savedLinks;
        CountersAdvance(catalog, users, routines, routineExercises, savedNextRoutineId, savedNextRowId,
                        nextRoutineId, nextRowId);
        result := None;
        return;
      }
      // COMMIT
      CreatePreservesValid(catalog, users, savedRoutines, savedLinks, insertId, savedNextRowId,
                           userId, isCustom, routineName, now, exerciseIds);
      CreatedRoutineRows(savedRoutines, savedLinks, insertId, savedNextRowId, exerciseIds);
      result := Some(insertId);
    }

    /** The second statement of the creation: one join row per exercise id, under `routineId`,
        as a single `INSERT`. A statement fails as a whole: an empty `VALUES` list, an id that
        is not an exercise, or an id given twice (the (routine_id, exercise_id) key) leaves the
        join table as it was. The row counter is not given back. */
    method InsertExerciseRows(routineId: nat, exerciseIds: seq<int>) returns (ok: bool)
      modifies this`routineExercises, this`nextRowId
      ensures ok <==> |exerciseIds| > 0 && (forall k :: 0 <= k < |exerciseIds| ==> exerciseIds[k] in catalog)
                      && Distinct(exerciseIds)
      ensures ok ==> routineExercises == old(routineExercises) + LinkRows(routineId, old(nextRowId), exerciseIds)
                     && nextRowId == old(nextRowId) + |exerciseIds|
      ensures !ok ==> routineExercises == old(routineExercises) && nextRowId >= old(nextRowId)
    {
      var savedLinks := routineExercises;
      ghost var savedNextRowId := nextRowId;
      ok := |exerciseIds| > 0;
      var i := 0;
      while ok && i < |exerciseIds|
        invariant 0 <= i <= |exerciseIds|
        invariant ok ==> routineExercises == savedLinks + LinkRows(routineId, savedNextRowId, exerciseIds[..i])
        invariant ok ==> nextRowId == savedNextRowId + i
        invariant nextRowId >= savedNextRowId
        invariant ok ==> forall k :: 0 <= k < i ==> exerciseIds[k] in catalog
        invariant ok ==> Distinct(exerciseIds[..i])
        invariant !ok ==> !(|exerciseIds| > 0 && (forall k :: 0 <= k < |exerciseIds| ==> exerciseIds[k] in catalog)
                            && Distinct(exerciseIds))
        decreases |exerciseIds| - i, ok
      {
        var exerciseId := exerciseIds[i];
        if exerciseId !in catalog || exerciseId in exerciseIds[..i] {
          // A foreign-key or unique-key violation fails the whole statement.
          ok := false;
          if exerciseId in exerciseIds[..i] {
            var j :| 0 <= j < i && exerciseIds[j] == exerciseId;
            assert !Distinct(exerciseIds);
          }
        } else {
          LinkRowsExtend(routineId, savedNextRowId, exerciseIds, i);
          DistinctExtend(exerciseIds, i);
          routineExercises := routineExercises + [RoutineExercise(nextRowId, routineId, exerciseId, false)];
          nextRowId := nextRowId + 1;
          i := i + 1;
        }
      }
      if !ok {
        routineExercises := savedLinks;
      } else {
        assert exerciseIds[..i] == exerciseIds;
      }
    }

    /** Sets the completion flag of every join row of routine `id` to "its exercise is among
        `exerciseIds`", and touches no other row. An empty list makes `IN ()`, which MySQL
        rejects: then nothing changes. */
    method UpdateCompletedExerciseStatusByRoutineId(id: int, exerciseIds: seq<int>) returns (r: Outcome<()>)
      requires Valid()
      modifies this`routineExercises
      ensures Valid()
      ensures r.Err? <==> exerciseIds == []
      ensures r.Err? ==> r.error == SqlError
      ensures routineExercises == if r.Ok? then CompletionOverwrite(old(routineExercises), id, exerciseIds)
                                  else old(routineExercises)
    {
      if exerciseIds == [] {
        return Err(SqlError);
      }
      CompletionPreservesValid(catalog, users, routines, routineExercises, nextRoutineId, nextRowId,
                               id, exerciseIds);
      routineExercises := CompletionOverwrite(routineExercises, id, exerciseIds);
      return Ok(());
    }

    /** Sets `is_custom` to 1 on the routine with this owner and id; no row matching is not an
        error, and every other row is unchanged. */
    method ToCustom(userId: int, routineId: int)
      requires Valid()
      modifies this`routines
      ensures Valid()
      ensures routines == Promote(old(routines), userId, routineId)
    {
      PromotePreservesValid(catalog, users, routines, routineExercises, nextRoutineId, nextRowId,
                            userId, routineId);
      routines := Promote(routines, userId, routineId);
    }

    // -------------------------------------------------------------------------------------
    // Reads

    /** `SELECT * FROM routine_exercises WHERE routine_id = id`. */
    function FindRoutineByRoutineId(id: int): (r: seq<RoutineExercise>)
      reads this
      ensures forall row :: row in r <==> row in routineExercises && row.routineId == id
      ensures r == [] <==> !HasLink(routineExercises, id)
    {
      RoutineRowsExist(routineExercises, id);
      Filter(routineExercises, InRoutine(id))
    }

    /** The join rows of routine `id` whose exercise is among `exerciseIds`. The statement selects
        only `id, routine_id, exercise_id`; the model keeps the whole row. An empty list makes
        `IN ()`, which MySQL rejects. Under the table invariant there are as many rows as
        distinct requested ids linked to the routine. */
    function CheckExerciseIdsInRoutine(id: int, exerciseIds: seq<int>): (r: Outcome<seq<RoutineExercise>>)
      reads this
      requires Valid()
      ensures r.Err? <==> exerciseIds == []
      ensures r.Err? ==> r.error == SqlError
      ensures r.Ok? ==> forall row :: row in r.value <==>
                          row in routineExercises && row.routineId == id && row.exerciseId in exerciseIds
      ensures r.Ok? ==> |r.value| == |Elems(exerciseIds) * LinkedExerciseIds(routineExercises, id)|
    {
      if exerciseIds == [] then Err(SqlError)
      else
        MatchedRowsCount(routineExercises, id, exerciseIds);
        Ok(Filter(routineExercises, LinkedAmong(id, exerciseIds)))
    }

    /** The detail of routine `id`: no row when it has no exercise; otherwise one row with the
        totals of per-set cost times set count over its exercises, exactly its exercise ids, each
        exercise's record with that routine's completion flag, and its custom flag. */
    function GetExerciseByRoutineId(id: int): (r: seq<RoutineDetail>)
      reads this
      requires Valid()
      ensures |r| <= 1
      ensures r == [] <==> !HasLink(routineExercises, id)
      ensures r != [] ==>
                r[0].routineId == id
                && r[0].totalDuration == Weighted(catalog, FindRoutineByRoutineId(id), DurationCost)
                && r[0].totalCaloriesUsed == Weighted(catalog, FindRoutineByRoutineId(id), CalorieCost)
                && Elems(r[0].exerciseIds) == LinkedExerciseIds(routineExercises, id)
                && |r[0].exercises| == |r[0].exerciseIds|
                && r[0].isCustom.Some?
                && exists i :: 0 <= i < |routines| && routines[i].id == id
                               && r[0].isCustom == Some(routines[i].isCustom)
      ensures r != [] ==> forall j :: 0 <= j < |r[0].exercises| ==>
                r[0].exercises[j].id == r[0].exerciseIds[j]
                && exists k :: 0 <= k < |routineExercises| && routineExercises[k].routineId == id
                               && routineExercises[k].exerciseId == r[0].exerciseIds[j]
                               && routineExercises[k].completed == r[0].exercises[j].isCompleted
    {
      JoinedIsRoutineRows(id);
      if HasLink(routineExercises, id) then
        DetailIdsExactly(catalog, routines, routineExercises, id);
        DetailHasCustomFlag(catalog, routines, routineExercises, id);
        DetailLinksExactly(catalog, routines, routineExercises, id);
        DetailOf(catalog, routines, routineExercises, id)
      else
        DetailOf(catalog, routines, routineExercises, id)
    }

    /** Under the foreign key on exercise_id, the inner join with the catalog keeps every row of
        the routine. */
    lemma JoinedIsRoutineRows(id: int)
      requires Valid()
      ensures Joined(catalog, routineExercises, id) == FindRoutineByRoutineId(id)
      ensures InCatalog(catalog, FindRoutineByRoutineId(id))
      ensures Joined(catalog, routineExercises, id) == [] <==> !HasLink(routineExercises, id)
    {
      FilterSameSelection(routineExercises, JoinedTo(catalog, id), InRoutine(id));
    }

    /** `SELECT is_custom FROM routines WHERE user_id = userId AND id = routineId`, first row. */
    function CustomCheck(userId: int, routineId: int): (r: Option<int>)
      reads this
      ensures r.Some? <==> Owns(routines, userId, routineId)
      ensures r.Some? ==> exists i :: 0 <= i < |routines| && routines[i].userId == userId
                                      && routines[i].id == routineId && routines[i].isCustom == r.value
    {
      CustomFlag(routines, userId, routineId)
    }

    /** The user's custom routines that have at least one exercise, newest first by effective
        date, `LIMIT limit OFFSET offset`. An absent limit or offset is rendered as `NULL`, which
        MySQL's `LIMIT` clause rejects. */
    function RoutinesByUser(userId: int, limit: Option<nat>, offset: Option<nat>): (r: Outcome<seq<Summary>>)
      reads this
      ensures r.Err? <==> limit.None? || offset.None?
      ensures r.Err? ==> r.error == SqlError
      ensures r.Ok? ==> r.value == CustomRoutinesPage(catalog, routines, routineExercises, userId,
                                                      limit.value, offset.value)
      ensures r.Ok? ==> var n := |CustomSummaries(catalog, routines, routineExercises, userId)|;
                        |r.value| == (if offset.value <= n then Min(limit.value, n - offset.value) else 0)
                        && SortedByDateDesc(r.value)
      ensures r.Ok? ==> forall s :: s in r.value ==>
                exists i :: 0 <= i < |routines| && routines[i].id == s.routineId && routines[i].userId == userId
                            && routines[i].isCustom == 1 && HasLink(routineExercises, routines[i].id)
                            && s.createDate == EffectiveDate(routines[i])
                            && s == SummaryOf(catalog, routineExercises)(routines[i])
    {
      if limit.None? || offset.None? then Err(SqlError)
      else
        PageIsListed(catalog, routines, routineExercises, userId, limit.value, offset.value);
        Ok(CustomRoutinesPage(catalog, routines, routineExercises, userId, limit.value, offset.value))
    }

    /** The first routine of the user created in `[startDate, endDate)`, with its exercise ids
        (the single `null` of the left join when it has none); none when there is no such
        routine. */
    function GetRoutineHistoryByDate(userId: int, startDate: nat, endDate: nat): (r: Option<HistoryRow>)
      reads this
      ensures r.None? <==> forall i :: 0 <= i < |routines| ==>
                !(routines[i].userId == userId && startDate <= routines[i].createdAt < endDate)
      ensures r.Some? ==> exists i :: 0 <= i < |routines| && routines[i].id == r.value.routineId
                                      && routines[i].userId == userId
                                      && startDate <= routines[i].createdAt < endDate
      ensures r.Some? ==> (r.value.exercises == [None] <==> !HasLink(routineExercises, r.value.routineId))
      ensures r.Some? && HasLink(routineExercises, r.value.routineId) ==>
                (forall k :: 0 <= k < |r.value.exercises| ==> r.value.exercises[k].Some?)
                && forall x :: Some(x) in r.value.exercises <==> x in LinkedExerciseIds(routineExercises, r.value.routineId)
    {
      HistoryByDate(routines, routineExercises, userId, startDate, endDate)
    }
  }
}
