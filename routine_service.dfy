/** The routine service: the guard checks on the request, followed by the store calls they allow,
    in the order the service issues them. Every call ends in `Ok(value)` or in `Err` with the
    status and code the service throws (or a TypeError, or an error MySQL raises that the service
    does not catch). The user lookup is the store's `users` table, and the exercise lookup is its
    catalog. */
module RoutineService {
  import opened Tables
  import opened Queries
  import opened RoutineDao

  /** A request field as JavaScript sees it: absent, `null`, or a value. */
  datatype Param<T> = Undefined | Null | Given(value: T)

  /** An element of the `exercises` list of a request: an integer or anything else. */
  datatype Value = Int(n: int) | NotInt

  /** The body of a create request. */
  datatype RoutineBody = RoutineBody(exercises: Param<seq<Value>>, isCustom: int)

  const NoRoutineIdInput: string := "not input routine id(path parameter)"
  const NoRoutineInDb: string := "not exist routine id in DB"
  const KeyError: string := "KEY_ERROR"
  const EmptyExercises: string := "EMPTY_INPUT: exercises"
  const Unauthorized: string := "UNAUTHORIZED"
  const CreateFailed: string := "ERROR"
  const InvalidInput: string := "INVALID_INPUT"
  const NotSaved: string := "NOT_SAVED"

  /** `utils.getIsInputEmpty`: the field is undefined or null. */
  predicate IsInputEmpty<T>(p: Param<T>) {
    p.Undefined? || p.Null?
  }

  /** `!id` for the path parameter. It arrives as a string, and the only falsy string, the
      empty one, is never a path parameter: so `!id` holds only when it is absent or null. */
  predicate IsFalsy(id: Param<int>) {
    id.Undefined? || id.Null?
  }

  /** `utils.getIsIntegers`: every element is an integer. */
  predicate IsIntegers(s: seq<Value>) {
    forall k :: 0 <= k < |s| ==> s[k].Int?
  }

  function AsInts(s: seq<Value>): (r: seq<int>)
    requires IsIntegers(s)
    ensures |r| == |s| && forall k :: 0 <= k < |s| ==> s[k] == Int(r[k])
  {
    seq(|s|, k requires 0 <= k < |s| => s[k].n)
  }

  /** `utils.getIsPremiumContent` over `exerciseDao.getExercisesListByIds(ids)`: some requested
      exercise that the catalog has is premium. */
  predicate IsPremiumContent(catalog: Catalog, ids: seq<int>) {
    exists k :: 0 <= k < |ids| && ids[k] in catalog && catalog[ids[k]].isPremium
  }

  // ---------------------------------------------------------------------------------------
  // getExerciseByRoutineId

  /** A falsy id fails first, then an id without join rows; otherwise the store's detail, which
      then holds exactly one row. Nothing is written. */
  method GetExerciseByRoutineId(store: RoutineStore, id: Param<int>) returns (r: Outcome<seq<RoutineDetail>>)
    requires store.Valid()
    ensures IsFalsy(id) ==> r == Err(Http(400, NoRoutineIdInput))
    ensures !IsFalsy(id) && !HasLink(store.routineExercises, id.value) ==> r == Err(Http(400, NoRoutineInDb))
    ensures !IsFalsy(id) && HasLink(store.routineExercises, id.value) ==>
              r.Ok? && |r.value| == 1 && r.value == store.GetExerciseByRoutineId(id.value)
  {
    if IsFalsy(id) {
      return Err(Http(400, NoRoutineIdInput));
    }
    var existing := store.FindRoutineByRoutineId(id.value);
    if existing == [] {
      return Err(Http(400, NoRoutineInDb));
    }
    var result := store.GetExerciseByRoutineId(id.value);
    return Ok(result);
  }

  // ---------------------------------------------------------------------------------------
  // createRoutine

  /** The checks `createRoutine` makes before it writes, in its order: the user lookup (a missing
      user makes `user.subscriptionState` a TypeError), a missing list, an empty list, a
      non-integer element, and a premium exercise requested on the free tier. */
  function CreateRoutineGuard(users: Users, catalog: Catalog, userId: int, body: RoutineBody)
    : (r: Outcome<seq<int>>)
    ensures r == Err(TypeError) <==> userId !in users
    ensures userId in users && IsInputEmpty(body.exercises) ==> r == Err(Http(400, KeyError))
    ensures r == Err(Http(400, EmptyExercises)) <==> userId in users && body.exercises == Given([])
    ensures (userId in users && body.exercises.Given? && body.exercises.value != []
             && !IsIntegers(body.exercises.value)) ==> r == Err(Http(400, KeyError))
    ensures r == Err(Http(403, Unauthorized)) <==>
              userId in users && users[userId] == 0 && body.exercises.Given?
              && body.exercises.value != [] && IsIntegers(body.exercises.value)
              && IsPremiumContent(catalog, AsInts(body.exercises.value))
    ensures r == Err(Http(400, KeyError)) <==>
              userId in users
              && (IsInputEmpty(body.exercises)
                  || (body.exercises.Given? && body.exercises.value != [] && !IsIntegers(body.exercises.value)))
    ensures r.Ok? <==>
              userId in users && body.exercises.Given? && body.exercises.value != []
              && IsIntegers(body.exercises.value)
              && !(users[userId] == 0 && IsPremiumContent(catalog, AsInts(body.exercises.value)))
    ensures r.Ok? ==> r.value == AsInts(body.exercises.value)
  {
    if userId !in users then Err(TypeError)
    else if IsInputEmpty(body.exercises) then Err(Http(400, KeyError))
    else if body.exercises.value == [] then Err(Http(400, EmptyExercises))
    else if !IsIntegers(body.exercises.value) then Err(Http(400, KeyError))
    else
      var ids := AsInts(body.exercises.value);
      if users[userId] == 0 && IsPremiumContent(catalog, ids) then Err(Http(403, Unauthorized))
      else Ok(ids)
  }

  /** Premium gating holds whatever else is requested: a free-tier request refused for premium
      content stays refused when more integer ids are added. */
  lemma {:induction false} PremiumRefusalIsMonotone(users: Users, catalog: Catalog, userId: int,
                                                    a: seq<Value>, b: seq<Value>, isCustom: int)
    requires CreateRoutineGuard(users, catalog, userId, RoutineBody(Given(a), isCustom)) == Err(Http(403, Unauthorized))
    requires IsIntegers(b)
    ensures CreateRoutineGuard(users, catalog, userId, RoutineBody(Given(a + b), isCustom)) == Err(Http(403, Unauthorized))
  {
    var k :| 0 <= k < |AsInts(a)| && AsInts(a)[k] in catalog && catalog[AsInts(a)[k]].isPremium;
    assert (a + b)[k] == a[k];
    assert AsInts(a + b)[k] == AsInts(a)[k];
  }

  /** Validates the request, then creates the routine in one transaction with no name. A store
      failure becomes 400 "ERROR". Neither table changes unless the routine is created. */
  method CreateRoutine(store: RoutineStore, userId: int, body: RoutineBody, now: nat) returns (r: Outcome<nat>)
    requires store.Valid()
    modifies store
    ensures store.Valid()
    ensures var g := CreateRoutineGuard(store.users, store.catalog, userId, body);
            if g.Err? then
              r == Err(g.error)
              && store.routines == old(store.routines) && store.routineExercises == old(store.routineExercises)
              && store.nextRoutineId == old(store.nextRoutineId) && store.nextRowId == old(store.nextRowId)
            else if !CreateAccepted(store.catalog, store.users, userId, g.value) then
              r == Err(Http(400, CreateFailed))
              && store.routines == old(store.routines) && store.routineExercises == old(store.routineExercises)
            else
              r == Ok(old(store.nextRoutineId))
              && store.routines == old(store.routines) + [Routine(r.value, userId, body.isCustom, None, now, None)]
              && store.routineExercises == old(store.routineExercises) + LinkRows(r.value, old(store.nextRowId), g.value)
              && store.nextRoutineId == old(store.nextRoutineId) + 1
              && store.nextRowId == old(store.nextRowId) + |g.value|
  {
    var guard := CreateRoutineGuard(store.users, store.catalog, userId, body);
    if guard.Err? {
      return Err(guard.error);
    }
    var result := store.CreateRoutineInTransaction(userId, body.isCustom, guard.value, None, now);
    if result.None? {
      return Err(Http(400, CreateFailed));
    }
    return Ok(result.value);
  }

  // ---------------------------------------------------------------------------------------
  // updateCompletedExerciseStatus

  /** A missing list fails with KEY_ERROR; an empty one reaches MySQL as `IN ()` and fails there;
      if the matched join rows are not as many as the ids given, INVALID_INPUT; otherwise the
      routine's completion flags are overwritten. Under the unique key the check passes exactly
      when no id repeats and every id belongs to the routine. */
  method UpdateCompletedExerciseStatus(store: RoutineStore, id: int, exerciseIds: Param<seq<int>>)
    returns (r: Outcome<()>)
    requires store.Valid()
    modifies store`routineExercises
    ensures store.Valid()
    ensures store.routines == old(store.routines)
    ensures IsInputEmpty(exerciseIds) ==> r == Err(Http(400, KeyError))
    ensures exerciseIds == Given([]) ==> r == Err(SqlError)
    ensures exerciseIds.Given? && exerciseIds.value != [] ==>
              (r.Ok? <==> Distinct(exerciseIds.value)
                          && forall k :: 0 <= k < |exerciseIds.value| ==>
                               exerciseIds.value[k] in LinkedExerciseIds(old(store.routineExercises), id))
              && (r.Err? ==> r.error == Http(400, InvalidInput))
    ensures store.routineExercises == if r.Ok? then CompletionOverwrite(old(store.routineExercises), id, exerciseIds.value)
                                      else old(store.routineExercises)
  {
    if IsInputEmpty(exerciseIds) {
      return Err(Http(400, KeyError));
    }
    var ids := exerciseIds.value;
    var matched := store.CheckExerciseIdsInRoutine(id, ids);
    if matched.Err? {
      return Err(matched.error);
    }
    CardinalityCheckExact(store.routineExercises, id, ids);
    MatchedRowsCount(store.routineExercises, id, ids);
    if |matched.value| != |ids| {
      return Err(Http(400, InvalidInput));
    }
    r := store.UpdateCompletedExerciseStatusByRoutineId(id, ids);
  }

  // ---------------------------------------------------------------------------------------
  // routinesByUser

  /** As written: the store is called without `limit` and `offset`, which reach MySQL as
      `LIMIT NULL OFFSET NULL` and are rejected, so the error propagates on every call. */
  method RoutinesByUserAsWritten(store: RoutineStore, userId: int) returns (r: Outcome<seq<Summary>>)
    ensures r == Err(SqlError)
  {
    // The rejected query rejects the awaited call, so the NO_CUSTOM_ROUTINES check is not reached.
    r := store.RoutinesByUser(userId, None, None);
  }

  /** With the pagination passed through: the store's page, returned unchanged. The page is an
      array, truthy even when empty, so NO_CUSTOM_ROUTINES is never raised, and a user without
      custom routines gets the empty list. */
  method RoutinesByUser(store: RoutineStore, userId: int, limit: nat, offset: nat) returns (r: Outcome<seq<Summary>>)
    ensures r == Ok(CustomRoutinesPage(store.catalog, store.routines, store.routineExercises, userId, limit, offset))
    ensures var n := |CustomSummaries(store.catalog, store.routines, store.routineExercises, userId)|;
            |r.value| == (if offset <= n then Min(limit, n - offset) else 0) && SortedByDateDesc(r.value)
    ensures forall s :: s in r.value ==>
              exists i :: 0 <= i < |store.routines| && store.routines[i].id == s.routineId
                          && store.routines[i].userId == userId && store.routines[i].isCustom == 1
                          && s == SummaryOf(store.catalog, store.routineExercises)(store.routines[i])
  {
    // The query cannot fail here, and its array result is truthy even when empty.
    r := store.RoutinesByUser(userId, Some(limit), Some(offset));
  }

  // ---------------------------------------------------------------------------------------
  // saveToCustom

  /** Promotes the routine, then reads its flag back. The flag reads 1 whenever the row exists,
      so NOT_SAVED is never thrown here; a routine the user does not own (or that does not exist)
      has no row, and reading `.is_custom` of `undefined` is a TypeError. */
  method SaveToCustom(store: RoutineStore, userId: int, routineId: int) returns (r: Outcome<()>)
    requires store.Valid()
    modifies store`routines
    ensures store.Valid()
    ensures store.routines == Promote(old(store.routines), userId, routineId)
    ensures store.routineExercises == old(store.routineExercises)
    ensures r.Ok? <==> Owns(old(store.routines), userId, routineId)
    ensures r.Err? ==> r.error == TypeError
  {
    store.ToCustom(userId, routineId);
    var check := store.CustomCheck(userId, routineId);
    PromoteThenCheck(old(store.routines), userId, routineId);
    if check.None? {
      return Err(TypeError);
    }
    if check.value == 0 {
      return Err(Http(400, NotSaved));
    }
    return Ok(());
  }

  // ---------------------------------------------------------------------------------------
  // The creation scenario of the repository's tests

  /** The users and exercises the creation tests insert: user 1 on the free tier, user 2
      subscribed; exercises 3, 6, 7, 9 and 10 are premium. */
  function TestUsers(): Users {
    map[1 := 0, 2 := 1]
  }

  function TestCatalog(): Catalog {
    map[1 := Exercise("leg raise", false, 100, 352, 3),
        2 := Exercise("squat", false, 150, 700, 3),
        3 := Exercise("bicycle crunch", true, 256, 111, 3),
        4 := Exercise("push-up", false, 175, 257, 6),
        5 := Exercise("running", false, 300, 840, 1),
        6 := Exercise("plank", true, 56, 268, 1),
        7 := Exercise("back extension", true, 33, 60, 3),
        8 := Exercise("cycling", false, 1300, 1320, 1),
        9 := Exercise("reverse lunge", true, 212, 56, 3),
        10 := Exercise("burpee", true, 15000, 714, 1)]
  }

  /** A free-tier user asking for exercises 1, 2 and 4, none premium, passes every check and can
      be inserted, whether the routine is recommended or custom. */
  lemma FreeTierNonPremiumRequestPasses(isCustom: int)
    ensures CreateRoutineGuard(TestUsers(), TestCatalog(), 1, RoutineBody(Given([Int(1), Int(2), Int(4)]), isCustom))
            == Ok([1, 2, 4])
    ensures CreateAccepted(TestCatalog(), TestUsers(), 1, [1, 2, 4])
  {
    var ids := AsInts([Int(1), Int(2), Int(4)]);
    assert ids == [1, 2, 4];
    assert !IsPremiumContent(TestCatalog(), ids) by {
      forall k | 0 <= k < |ids| ensures !(ids[k] in TestCatalog() && TestCatalog()[ids[k]].isPremium) {
        assert ids[k] == 1 || ids[k] == 2 || ids[k] == 4;
      }
    }
  }

  /** The same user asking for a premium exercise among others is refused with 403. */
  lemma FreeTierPremiumRequestRefused(isCustom: int)
    ensures CreateRoutineGuard(TestUsers(), TestCatalog(), 1, RoutineBody(Given([Int(3), Int(2), Int(4)]), isCustom))
            == Err(Http(403, Unauthorized))
  {
    var ids := AsInts([Int(3), Int(2), Int(4)]);
    assert ids[0] == 3 && ids[0] in TestCatalog() && TestCatalog()[ids[0]].isPremium;
  }

  /** The subscribed user may ask for the premium exercise. */
  lemma SubscribedPremiumRequestPasses()
    ensures CreateRoutineGuard(TestUsers(), TestCatalog(), 2, RoutineBody(Given([Int(3), Int(2), Int(4)]), 1))
            == Ok([3, 2, 4])
  {
    assert AsInts([Int(3), Int(2), Int(4)]) == [3, 2, 4];
  }

  /** Both creations of the tests succeed, on fresh ids, with three join rows each. */
  method CreationScenario() {
    var store := new RoutineStore(TestCatalog(), TestUsers());
    FreeTierNonPremiumRequestPasses(0);
    FreeTierNonPremiumRequestPasses(1);
    var recommended := CreateRoutine(store, 1, RoutineBody(Given([Int(1), Int(2), Int(4)]), 0), 100);
    assert recommended == Ok(1);
    var custom := CreateRoutine(store, 1, RoutineBody(Given([Int(1), Int(2), Int(4)]), 1), 200);
    assert custom == Ok(2);
    assert |store.routineExercises| == 6;
  }
}
