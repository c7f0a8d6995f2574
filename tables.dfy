/** The routine tables of the workout backend, as values: the rows of `routines`, the rows of
    the `routine_exercises` join table, and the read-only `exercises` catalog and `users` table
    they refer to. The pure functions here say what each write of the routine store does to the
    tables; the store's methods are proved against them. */
module Tables {

  datatype Option<T> = None | Some(value: T)

  /** What a store or service call can end in besides a value: an error thrown with a status and
      a machine-readable code, a JavaScript TypeError (reading a property of `undefined`), or a
      statement that MySQL rejects. */
  datatype Error = Http(status: int, code: string) | TypeError | SqlError

  datatype Outcome<T> = Ok(value: T) | Err(error: Error)

  /** A row of `routines`. `isCustom` is the tinyint column: 1 for a routine the user owns as
      custom, 0 for a recommended one. Timestamps are plain numbers supplied by the caller. */
  datatype Routine = Routine(id: nat, userId: int, isCustom: int, name: Option<string>,
                             createdAt: nat, updatedAt: Option<nat>)

  /** A row of `routine_exercises`: its own auto-increment id, the routine and the exercise it
      links, and the per-routine completion flag. */
  datatype RoutineExercise = RoutineExercise(rowId: nat, routineId: nat, exerciseId: int,
                                             completed: bool)

  /** The columns of an `exercises` record that the routine queries read. */
  datatype Exercise = Exercise(name: string, isPremium: bool, caloriesUsed: nat,
                               durationInSecondsPerSet: nat, setCounts: nat)

  /** The exercise catalog, by exercise id. */
  type Catalog = map<int, Exercise>

  /** The `users` table as the routine core sees it: user id to subscription state (0 is the
      free tier). */
  type Users = map<int, int>

  // ---------------------------------------------------------------------------------------
  // Sequences as tables

  predicate Distinct<T(==)>(s: seq<T>) {
    forall i, j :: 0 <= i < j < |s| ==> s[i] != s[j]
  }

  function Elems<T(==)>(s: seq<T>): set<T> {
    set x | x in s
  }

  /** The rows of `s` that satisfy `p`, in table order: a `WHERE` clause. */
  function Filter<T(!new,==)>(s: seq<T>, p: T -> bool): (r: seq<T>)
    ensures |r| <= |s|
    ensures forall x :: x in r <==> x in s && p(x)
    ensures forall k :: 0 <= k < |r| ==> p(r[k])
  {
    if s == [] then []
    else if p(s[0]) then [s[0]] + Filter(s[1..], p)
    else Filter(s[1..], p)
  }

  /** Selecting from two tables one after the other is selecting from each. */
  lemma {:induction false} FilterAppend<T(!new)>(a: seq<T>, b: seq<T>, p: T -> bool)
    ensures Filter(a + b, p) == Filter(a, p) + Filter(b, p)
  {
    if a == [] {
      assert a + b == b;
    } else {
      assert (a + b)[1..] == a[1..] + b;
      FilterAppend(a[1..], b, p);
    }
  }

  /** A selection that no row satisfies is empty; one that every row satisfies is the table. */
  lemma {:induction false} FilterNoneAll<T(!new)>(s: seq<T>, p: T -> bool)
    ensures (forall k :: 0 <= k < |s| ==> !p(s[k])) ==> Filter(s, p) == []
    ensures (forall k :: 0 <= k < |s| ==> p(s[k])) ==> Filter(s, p) == s
  {
    if s != [] {
      FilterNoneAll(s[1..], p);
      if forall k :: 0 <= k < |s| ==> p(s[k]) {
        assert forall k :: 0 <= k < |s[1..]| ==> p(s[1..][k]) by {
          forall k | 0 <= k < |s[1..]| ensures p(s[1..][k]) { assert s[1..][k] == s[k + 1]; }
        }
        assert [s[0]] + s[1..] == s;
      }
      if forall k :: 0 <= k < |s| ==> !p(s[k]) {
        assert forall k :: 0 <= k < |s[1..]| ==> !p(s[1..][k]) by {
          forall k | 0 <= k < |s[1..]| ensures !p(s[1..][k]) { assert s[1..][k] == s[k + 1]; }
        }
      }
    }
  }

  /** Two conditions that agree on every row of a table select the same rows. */
  lemma {:induction false} FilterSameSelection<T(!new)>(s: seq<T>, p: T -> bool, q: T -> bool)
    requires forall k :: 0 <= k < |s| ==> p(s[k]) == q(s[k])
    ensures Filter(s, p) == Filter(s, q)
  {
    if s != [] {
      forall k | 0 <= k < |s[1..]| ensures p(s[1..][k]) == q(s[1..][k]) {
        assert s[1..][k] == s[k + 1];
      }
      FilterSameSelection(s[1..], p, q);
    }
  }

  /** The first row a selection returns is the first row of the table that satisfies it. */
  lemma {:induction false} FilterFirst<T(!new)>(s: seq<T>, p: T -> bool)
    requires Filter(s, p) != []
    ensures exists i :: 0 <= i < |s| && s[i] == Filter(s, p)[0] && p(s[i])
                        && forall j :: 0 <= j < i ==> !p(s[j])
  {
    if p(s[0]) {
      assert s[0] == Filter(s, p)[0];
    } else {
      FilterFirst(s[1..], p);
      var i :| 0 <= i < |s[1..]| && s[1..][i] == Filter(s[1..], p)[0] && p(s[1..][i])
               && forall j :: 0 <= j < i ==> !p(s[1..][j]);
      assert s[i + 1] == Filter(s, p)[0];
      forall j | 0 <= j < i + 1 ensures !p(s[j]) {
        if j > 0 { assert s[j] == s[1..][j - 1]; }
      }
    }
  }

  /** Each row of `s` through `f`, in order: the projection of a `SELECT` list. */
  function MapRows<T, U>(s: seq<T>, f: T -> U): (r: seq<U>)
    ensures |r| == |s|
    ensures forall k :: 0 <= k < |s| ==> r[k] == f(s[k])
  {
    seq(|s|, k requires 0 <= k < |s| => f(s[k]))
  }

  /** A value is among the projected selection iff some selected row of the table projects to it. */
  lemma {:induction false} MappedSelection<T(!new), U(!new)>(s: seq<T>, p: T -> bool, f: T -> U)
    ensures forall y :: y in MapRows(Filter(s, p), f) <==> exists i :: 0 <= i < |s| && p(s[i]) && y == f(s[i])
  {
    var sel := Filter(s, p);
    var m := MapRows(sel, f);
    forall y ensures y in m <==> exists i :: 0 <= i < |s| && p(s[i]) && y == f(s[i]) {
      if y in m {
        var k :| 0 <= k < |m| && m[k] == y;
        assert sel[k] in s;
        var i :| 0 <= i < |s| && s[i] == sel[k];
      }
      if exists i :: 0 <= i < |s| && p(s[i]) && y == f(s[i]) {
        var i :| 0 <= i < |s| && p(s[i]) && y == f(s[i]);
        assert s[i] in sel;
        var k :| 0 <= k < |sel| && sel[k] == s[i];
        assert m[k] == y;
      }
    }
  }

  /** A row-wise update that never changes whether a row is selected commutes with the
      selection. */
  lemma {:induction false} FilterMapCommute<T(!new)>(s: seq<T>, p: T -> bool, f: T -> T)
    requires forall x :: p(f(x)) == p(x)
    ensures Filter(MapRows(s, f), p) == MapRows(Filter(s, p), f)
  {
    if s != [] {
      var m := MapRows(s, f);
      assert m[1..] == MapRows(s[1..], f);
      FilterMapCommute(s[1..], p, f);
      assert p(m[0]) == p(s[0]);
      if p(s[0]) {
        assert MapRows(Filter(s, p), f) == [f(s[0])] + MapRows(Filter(s[1..], p), f);
      }
    }
  }

  /** A sequence has at most as many distinct elements as entries, and exactly as many when no
      entry repeats. */
  lemma {:induction false} ElemsCount<T>(s: seq<T>)
    ensures |Elems(s)| <= |s|
    ensures |Elems(s)| == |s| <==> Distinct(s)
  {
    if s == [] {
      assert Elems(s) == {};
    } else {
      var t := s[1..];
      ElemsCount(t);
      assert Elems(s) == {s[0]} + Elems(t) by {
        forall x ensures x in Elems(s) <==> x in {s[0]} + Elems(t) {
          if x in s && x != s[0] {
            var i :| 0 <= i < |s| && s[i] == x;
            assert t[i - 1] == x;
          }
        }
      }
      assert Distinct(s) <==> s[0] !in t && Distinct(t) by {
        if s[0] in t {
          var i :| 0 <= i < |t| && t[i] == s[0];
          assert s[i + 1] == s[0];
        }
        if Distinct(s) {
          forall i, j | 0 <= i < j < |t| ensures t[i] != t[j] { assert t[i] == s[i + 1] && t[j] == s[j + 1]; }
        }
        if s[0] !in t && Distinct(t) {
          forall i, j | 0 <= i < j < |s| ensures s[i] != s[j] {
            assert s[j] == t[j - 1];
            if i > 0 { assert s[i] == t[i - 1]; }
          }
        }
      }
      if s[0] in t {
        assert s[0] in Elems(t);
        assert Elems(s) == Elems(t);
      } else {
        assert s[0] !in Elems(t);
      }
    }
  }

  // ---------------------------------------------------------------------------------------
  // Selections over the tables

  /** `WHERE routine_id = id` on `routine_exercises`. */
  function InRoutine(id: int): RoutineExercise -> bool {
    (row: RoutineExercise) => row.routineId == id
  }

  /** `WHERE routine_id = id AND exercise_id IN (ids)` on `routine_exercises`. */
  function LinkedAmong(id: int, ids: seq<int>): RoutineExercise -> bool {
    (row: RoutineExercise) => row.routineId == id && row.exerciseId in ids
  }

  predicate HasRoutine(routines: seq<Routine>, id: int) {
    exists i :: 0 <= i < |routines| && routines[i].id == id
  }

  /** Some row of `routines` has this owner and this id. */
  predicate Owns(routines: seq<Routine>, userId: int, routineId: int) {
    exists i :: 0 <= i < |routines| && routines[i].userId == userId && routines[i].id == routineId
  }

  predicate HasLink(links: seq<RoutineExercise>, routineId: int) {
    exists k :: 0 <= k < |links| && links[k].routineId == routineId
  }

  /** The exercise ids linked to a routine. */
  function LinkedExerciseIds(links: seq<RoutineExercise>, routineId: int): set<int> {
    set k | 0 <= k < |links| && links[k].routineId == routineId :: links[k].exerciseId
  }

  // ---------------------------------------------------------------------------------------
  // The table invariant

  /** The unique key on (routine_id, exercise_id) of `routine_exercises`. */
  predicate UniquePairs(links: seq<RoutineExercise>) {
    forall k, l :: 0 <= k < l < |links| ==>
      links[k].routineId != links[l].routineId || links[k].exerciseId != links[l].exerciseId
  }

  /** Routine ids are unique and below the auto-increment counter; every owner is a user. */
  predicate RoutinesValid(users: Users, routines: seq<Routine>, nextRoutineId: nat) {
    (forall i :: 0 <= i < |routines| ==> routines[i].id < nextRoutineId && routines[i].userId in users)
    && (forall i, j :: 0 <= i < j < |routines| ==> routines[i].id != routines[j].id)
  }

  /** Join-row ids are unique and below their counter; both foreign keys hold; pairs are unique. */
  predicate LinksValid(catalog: Catalog, routines: seq<Routine>, links: seq<RoutineExercise>,
                       nextRowId: nat)
  {
    (forall k :: 0 <= k < |links| ==>
       links[k].rowId < nextRowId && links[k].exerciseId in catalog
       && HasRoutine(routines, links[k].routineId))
    && (forall k, l :: 0 <= k < l < |links| ==> links[k].rowId != links[l].rowId)
    && UniquePairs(links)
  }

  /** The invariant of the routine tables: keys and foreign keys hold, and every routine has at
      least one exercise (creation never accepts an empty exercise list). */
  predicate TablesValid(catalog: Catalog, users: Users, routines: seq<Routine>,
                        links: seq<RoutineExercise>, nextRoutineId: nat, nextRowId: nat)
  {
    RoutinesValid(users, routines, nextRoutineId)
    && LinksValid(catalog, routines, links, nextRowId)
    && (forall i :: 0 <= i < |routines| ==> HasLink(links, routines[i].id))
  }

  /** Auto-increment counters only move forward, and larger counters keep the invariant: a
      rolled-back insert leaves valid tables behind. */
  lemma {:induction false} CountersAdvance(catalog: Catalog, users: Users, routines: seq<Routine>,
                                           links: seq<RoutineExercise>, nextRoutineId: nat, nextRowId: nat,
                                           nextRoutineId': nat, nextRowId': nat)
    requires TablesValid(catalog, users, routines, links, nextRoutineId, nextRowId)
    requires nextRoutineId <= nextRoutineId' && nextRowId <= nextRowId'
    ensures TablesValid(catalog, users, routines, links, nextRoutineId', nextRowId')
  {
  }

  // ---------------------------------------------------------------------------------------
  // Creating a routine

  /** The join rows inserted for a new routine: one per exercise id, in the order given, with
      consecutive row ids and the completion flag at its default. */
  function LinkRows(routineId: nat, firstRowId: nat, ids: seq<int>): seq<RoutineExercise> {
    seq(|ids|, k requires 0 <= k < |ids| => RoutineExercise(firstRowId + k, routineId, ids[k], false))
  }

  /** Inserting one more id of the list adds one more join row, with the next row id. */
  lemma {:induction false} LinkRowsExtend(routineId: nat, firstRowId: nat, ids: seq<int>, i: nat)
    requires i < |ids|
    ensures LinkRows(routineId, firstRowId, ids[..i + 1])
            == LinkRows(routineId, firstRowId, ids[..i]) + [RoutineExercise(firstRowId + i, routineId, ids[i], false)]
  {
    assert ids[..i + 1] == ids[..i] + [ids[i]];
  }

  /** A prefix without repeats stays so when the next id is new. */
  lemma {:induction false} DistinctExtend(ids: seq<int>, i: nat)
    requires i < |ids| && Distinct(ids[..i]) && ids[i] !in ids[..i]
    ensures Distinct(ids[..i + 1])
  {
    var t := ids[..i + 1];
    forall a, b | 0 <= a < b < |t| ensures t[a] != t[b] {
      if b == i {
        assert t[a] == ids[..i][a];
      } else {
        assert t[a] == ids[..i][a] && t[b] == ids[..i][b];
      }
    }
  }

  /** When both inserts of a routine creation succeed: `user_id` refers to a user, the `VALUES`
      list is not empty (`VALUES ()` has no value for the two listed columns, and MySQL rejects
      it), every `exercise_id` refers to an exercise, and no (routine_id, exercise_id) pair
      repeats. */
  predicate CreateAccepted(catalog: Catalog, users: Users, userId: int, ids: seq<int>) {
    userId in users && |ids| > 0 && (forall k :: 0 <= k < |ids| ==> ids[k] in catalog) && Distinct(ids)
  }

  /** The routine row of a creation keeps the routine ids unique and below the counter. */
  lemma {:induction false} CreateKeepsRoutinesValid(users: Users, routines: seq<Routine>, nextRoutineId: nat,
                                                    r: Routine)
    requires RoutinesValid(users, routines, nextRoutineId)
    requires r.id == nextRoutineId && r.userId in users
    ensures RoutinesValid(users, routines + [r], nextRoutineId + 1)
  {
    var routines' := routines + [r];
    forall i, j | 0 <= i < j < |routines'| ensures routines'[i].id != routines'[j].id {
      if j == |routines| { assert routines'[i] == routines[i]; }
    }
  }

  /** The join rows of a creation keep the keys and foreign keys of `routine_exercises`. */
  lemma {:induction false} CreateKeepsLinksValid(catalog: Catalog, users: Users, routines: seq<Routine>,
                                                 links: seq<RoutineExercise>, nextRoutineId: nat,
                                                 nextRowId: nat, r: Routine, ids: seq<int>)
    requires RoutinesValid(users, routines, nextRoutineId) && LinksValid(catalog, routines, links, nextRowId)
    requires r.id == nextRoutineId
    requires (forall k :: 0 <= k < |ids| ==> ids[k] in catalog) && Distinct(ids)
    ensures LinksValid(catalog, routines + [r], links + LinkRows(nextRoutineId, nextRowId, ids),
                       nextRowId + |ids|)
  {
    var routines' := routines + [r];
    var added := LinkRows(nextRoutineId, nextRowId, ids);
    var links' := links + added;
    forall k | 0 <= k < |links'|
      ensures links'[k].rowId < nextRowId + |ids| && links'[k].exerciseId in catalog
              && HasRoutine(routines', links'[k].routineId)
    {
      if k < |links| {
        assert links'[k] == links[k];
        assert HasRoutine(routines, links[k].routineId);
        var i :| 0 <= i < |routines| && routines[i].id == links[k].routineId;
        assert routines'[i] == routines[i];
      } else {
        assert links'[k] == added[k - |links|];
        assert routines'[|routines|] == r;
      }
    }
    // Every old link refers to an old routine, so to an id below the new one.
    forall k | 0 <= k < |links| ensures links[k].routineId < nextRoutineId {
      assert HasRoutine(routines, links[k].routineId);
      var i :| 0 <= i < |routines| && routines[i].id == links[k].routineId;
    }
    forall k, l | 0 <= k < l < |links'|
      ensures links'[k].rowId != links'[l].rowId
      ensures links'[k].routineId != links'[l].routineId || links'[k].exerciseId != links'[l].exerciseId
    {
      if l < |links| {
        assert links'[k] == links[k] && links'[l] == links[l];
      } else if k < |links| {
        assert links'[k] == links[k] && links'[l] == added[l - |links|];
      } else {
        assert links'[k] == added[k - |links|] && links'[l] == added[l - |links|];
      }
    }
  }

  /** A committed creation keeps the table invariant. */
  lemma {:induction false} CreatePreservesValid(catalog: Catalog, users: Users, routines: seq<Routine>,
                             links: seq<RoutineExercise>, nextRoutineId: nat, nextRowId: nat,
                             userId: int, isCustom: int, name: Option<string>, now: nat,
                             ids: seq<int>)
    requires TablesValid(catalog, users, routines, links, nextRoutineId, nextRowId)
    requires CreateAccepted(catalog, users, userId, ids)
    ensures TablesValid(catalog, users,
                        routines + [Routine(nextRoutineId, userId, isCustom, name, now, None)],
                        links + LinkRows(nextRoutineId, nextRowId, ids),
                        nextRoutineId + 1, nextRowId + |ids|)
  {
    var r := Routine(nextRoutineId, userId, isCustom, name, now, None);
    var routines' := routines + [r];
    var added := LinkRows(nextRoutineId, nextRowId, ids);
    var links' := links + added;
    CreateKeepsRoutinesValid(users, routines, nextRoutineId, r);
    CreateKeepsLinksValid(catalog, users, routines, links, nextRoutineId, nextRowId, r, ids);
    forall i | 0 <= i < |routines'| ensures HasLink(links', routines'[i].id) {
      if i < |routines| {
        assert routines'[i] == routines[i];
        assert HasLink(links, routines[i].id);
        var k :| 0 <= k < |links| && links[k].routineId == routines[i].id;
        assert links'[k] == links[k];
      } else {
        assert links'[|links|] == added[0];
      }
    }
  }

  /** Right after a creation, the new routine's join rows are exactly the inserted ones. */
  lemma {:induction false} CreatedRoutineRows(routines: seq<Routine>, links: seq<RoutineExercise>,
                           nextRoutineId: nat, nextRowId: nat, ids: seq<int>)
    requires forall k :: 0 <= k < |links| ==> HasRoutine(routines, links[k].routineId)
    requires forall i :: 0 <= i < |routines| ==> routines[i].id < nextRoutineId
    ensures Filter(links + LinkRows(nextRoutineId, nextRowId, ids), InRoutine(nextRoutineId))
            == LinkRows(nextRoutineId, nextRowId, ids)
  {
    var added := LinkRows(nextRoutineId, nextRowId, ids);
    forall k | 0 <= k < |links| ensures links[k].routineId != nextRoutineId {
      var i :| 0 <= i < |routines| && routines[i].id == links[k].routineId;
    }
    FilterAppend(links, added, InRoutine(nextRoutineId));
    FilterNoneAll(links, InRoutine(nextRoutineId));
    FilterNoneAll(added, InRoutine(nextRoutineId));
  }

  // ---------------------------------------------------------------------------------------
  // The completion update

  /** The new value of one row under the completion update of a routine. */
  function MarkCompleted(routineId: int, ids: seq<int>): RoutineExercise -> RoutineExercise {
    (row: RoutineExercise) =>
      if row.routineId == routineId then row.(completed := row.exerciseId in ids) else row
  }

  /** `SET completed = IF(exercise_id IN (ids), 1, 0) WHERE routine_id = id`: every row of the
      routine gets the flag "its exercise is among ids"; every other row stays as it was. */
  function CompletionOverwrite(links: seq<RoutineExercise>, routineId: int, ids: seq<int>)
    : (r: seq<RoutineExercise>)
    ensures |r| == |links|
    ensures forall k :: 0 <= k < |links| ==> r[k].(completed := links[k].completed) == links[k]
    ensures forall k :: 0 <= k < |links| && links[k].routineId == routineId ==>
              (r[k].completed <==> links[k].exerciseId in ids)
    ensures forall k :: 0 <= k < |links| && links[k].routineId != routineId ==> r[k] == links[k]
  {
    MapRows(links, MarkCompleted(routineId, ids))
  }

  /** The update is a full overwrite, not a merge: a second update of the same routine erases
      every trace of the first. */
  lemma {:induction false} CompletionOverwriteLastWins(links: seq<RoutineExercise>, routineId: int,
                                    first: seq<int>, second: seq<int>)
    ensures CompletionOverwrite(CompletionOverwrite(links, routineId, first), routineId, second)
            == CompletionOverwrite(links, routineId, second)
  {
    var a := CompletionOverwrite(CompletionOverwrite(links, routineId, first), routineId, second);
    var b := CompletionOverwrite(links, routineId, second);
    assert |a| == |b|;
    forall k | 0 <= k < |a| ensures a[k] == b[k] {
      var mid := CompletionOverwrite(links, routineId, first);
      assert mid[k].(completed := links[k].completed) == links[k];
    }
  }

  /** Applying the same update twice gives the state of applying it once. */
  lemma {:induction false} CompletionOverwriteIdempotent(links: seq<RoutineExercise>, routineId: int, ids: seq<int>)
    ensures CompletionOverwrite(CompletionOverwrite(links, routineId, ids), routineId, ids)
            == CompletionOverwrite(links, routineId, ids)
  {
    CompletionOverwriteLastWins(links, routineId, ids, ids);
  }

  /** The completion update keeps the table invariant (it changes only completion flags). */
  lemma {:induction false} CompletionPreservesValid(catalog: Catalog, users: Users, routines: seq<Routine>,
                                 links: seq<RoutineExercise>, nextRoutineId: nat, nextRowId: nat,
                                 routineId: int, ids: seq<int>)
    requires TablesValid(catalog, users, routines, links, nextRoutineId, nextRowId)
    ensures TablesValid(catalog, users, routines, CompletionOverwrite(links, routineId, ids),
                        nextRoutineId, nextRowId)
  {
    var links' := CompletionOverwrite(links, routineId, ids);
    forall k | 0 <= k < |links'|
      ensures links'[k].rowId == links[k].rowId && links'[k].routineId == links[k].routineId
              && links'[k].exerciseId == links[k].exerciseId
    {
      assert links'[k].(completed := links[k].completed) == links[k];
    }
    forall i | 0 <= i < |routines| ensures HasLink(links', routines[i].id) {
      assert HasLink(links, routines[i].id);
      var k :| 0 <= k < |links| && links[k].routineId == routines[i].id;
      assert links'[k].routineId == routines[i].id;
    }
  }

  // ---------------------------------------------------------------------------------------
  // Promotion to custom

  /** `UPDATE routines SET is_custom = 1 WHERE user_id = userId AND id = routineId`. */
  function Promote(routines: seq<Routine>, userId: int, routineId: int): (r: seq<Routine>)
    ensures |r| == |routines|
    ensures forall i :: 0 <= i < |routines| ==> r[i].(isCustom := routines[i].isCustom) == routines[i]
    ensures forall i :: 0 <= i < |routines| ==>
              r[i].isCustom == if routines[i].userId == userId && routines[i].id == routineId
                               then 1 else routines[i].isCustom
    ensures !Owns(routines, userId, routineId) ==> r == routines
  {
    seq(|routines|, i requires 0 <= i < |routines| =>
      if routines[i].userId == userId && routines[i].id == routineId then routines[i].(isCustom := 1)
      else routines[i])
  }

  /** Promotion keeps the table invariant. */
  lemma {:induction false} PromotePreservesValid(catalog: Catalog, users: Users, routines: seq<Routine>,
                              links: seq<RoutineExercise>, nextRoutineId: nat, nextRowId: nat,
                              userId: int, routineId: int)
    requires TablesValid(catalog, users, routines, links, nextRoutineId, nextRowId)
    ensures TablesValid(catalog, users, Promote(routines, userId, routineId), links,
                        nextRoutineId, nextRowId)
  {
    var routines' := Promote(routines, userId, routineId);
    forall i | 0 <= i < |routines| ensures routines'[i].id == routines[i].id && routines'[i].userId == routines[i].userId {
      assert routines'[i].(isCustom := routines[i].isCustom) == routines[i];
    }
    forall k | 0 <= k < |links| ensures HasRoutine(routines', links[k].routineId) {
      assert HasRoutine(routines, links[k].routineId);
      var i :| 0 <= i < |routines| && routines[i].id == links[k].routineId;
      assert routines'[i].id == links[k].routineId;
    }
  }

  /** Promoting twice is promoting once. */
  lemma {:induction false} PromoteIdempotent(routines: seq<Routine>, userId: int, routineId: int)
    ensures Promote(Promote(routines, userId, routineId), userId, routineId)
            == Promote(routines, userId, routineId)
  {
    var once := Promote(routines, userId, routineId);
    var twice := Promote(once, userId, routineId);
    forall i | 0 <= i < |routines| ensures twice[i] == once[i] {
      assert once[i].(isCustom := routines[i].isCustom) == routines[i];
      assert twice[i].(isCustom := once[i].isCustom) == once[i];
    }
  }

  // ---------------------------------------------------------------------------------------
  // Counting the rows that match a list of exercise ids

  /** Dropping the first row of a table keeps the (routine_id, exercise_id) key. */
  lemma {:induction false} UniquePairsTail(links: seq<RoutineExercise>)
    requires links != [] && UniquePairs(links)
    ensures UniquePairs(links[1..])
  {
    var t := links[1..];
    forall k, l | 0 <= k < l < |t|
      ensures t[k].routineId != t[l].routineId || t[k].exerciseId != t[l].exerciseId
    {
      assert t[k] == links[k + 1] && t[l] == links[l + 1];
    }
  }

  /** The exercise ids linked to a routine are those of the first row, if it belongs to the
      routine, and those of the rest; under the key the first one is not among the rest. */
  lemma {:induction false} LinkedExerciseIdsCons(links: seq<RoutineExercise>, routineId: int)
    requires links != []
    ensures LinkedExerciseIds(links, routineId)
            == (if links[0].routineId == routineId then {links[0].exerciseId} else {})
               + LinkedExerciseIds(links[1..], routineId)
    ensures UniquePairs(links) && links[0].routineId == routineId
            ==> links[0].exerciseId !in LinkedExerciseIds(links[1..], routineId)
  {
    var t := links[1..];
    var head := if links[0].routineId == routineId then {links[0].exerciseId} else {};
    forall x ensures x in LinkedExerciseIds(links, routineId) <==> x in head + LinkedExerciseIds(t, routineId) {
      if x in LinkedExerciseIds(links, routineId) {
        var k :| 0 <= k < |links| && links[k].routineId == routineId && links[k].exerciseId == x;
        if k > 0 { assert t[k - 1] == links[k]; }
      }
      if x in LinkedExerciseIds(t, routineId) {
        var k :| 0 <= k < |t| && t[k].routineId == routineId && t[k].exerciseId == x;
        assert links[k + 1] == t[k];
      }
    }
    if UniquePairs(links) && links[0].routineId == routineId {
      forall k | 0 <= k < |t| && t[k].routineId == routineId ensures t[k].exerciseId != links[0].exerciseId {
        assert links[k + 1] == t[k];
      }
    }
  }

  /** The listed ids linked to a routine, split at the first row of the table. */
  lemma {:induction false} MatchedIdsCons(links: seq<RoutineExercise>, routineId: int, ids: seq<int>)
    requires links != [] && UniquePairs(links)
    ensures var rest := Elems(ids) * LinkedExerciseIds(links[1..], routineId);
            if LinkedAmong(routineId, ids)(links[0]) then
              Elems(ids) * LinkedExerciseIds(links, routineId) == {links[0].exerciseId} + rest
              && links[0].exerciseId !in rest
            else
              Elems(ids) * LinkedExerciseIds(links, routineId) == rest
  {
    LinkedExerciseIdsCons(links, routineId);
    var h := links[0];
    if h.routineId == routineId && h.exerciseId !in ids {
      assert h.exerciseId !in Elems(ids);
    }
  }

  /** Under the (routine_id, exercise_id) key, the rows of a routine whose exercise is among
      `ids` are as many as the distinct ids in the list that are linked to the routine. */
  lemma {:induction false} MatchedRowsCount(links: seq<RoutineExercise>, routineId: int, ids: seq<int>)
    requires UniquePairs(links)
    ensures |Filter(links, LinkedAmong(routineId, ids))| == |Elems(ids) * LinkedExerciseIds(links, routineId)|
  {
    if links == [] {
      assert LinkedExerciseIds(links, routineId) == {};
    } else {
      var p := LinkedAmong(routineId, ids);
      UniquePairsTail(links);
      MatchedRowsCount(links[1..], routineId, ids);
      MatchedIdsCons(links, routineId, ids);
      assert |Filter(links, p)| == (if p(links[0]) then 1 else 0) + |Filter(links[1..], p)|;
    }
  }

  /** The service's cardinality check is exact: the matched rows are as many as the ids given
      if and only if no id repeats and every id is linked to the routine. */
  lemma {:induction false} CardinalityCheckExact(links: seq<RoutineExercise>, routineId: int, ids: seq<int>)
    requires UniquePairs(links)
    ensures |Filter(links, LinkedAmong(routineId, ids))| == |ids|
            <==> Distinct(ids) && forall k :: 0 <= k < |ids| ==> ids[k] in LinkedExerciseIds(links, routineId)
  {
    var a, l := Elems(ids), LinkedExerciseIds(links, routineId);
    MatchedRowsCount(links, routineId, ids);
    ElemsCount(ids);
    assert |a * l| + |a - l| == |a|;
    if forall k :: 0 <= k < |ids| ==> ids[k] in l {
      assert a - l == {};
    } else {
      var k :| 0 <= k < |ids| && ids[k] !in l;
      assert ids[k] in a - l;
    }
  }
}
