/** The read queries of the routine store, as folds over the tables: the detail aggregate of
    one routine, the paginated list of a user's custom routines, the history lookup by date, and
    the custom-flag check. `JSON_ARRAYAGG` is modelled in table order. MySQL leaves that order
    unspecified: the lemmas that compare its arrays as sequences (`CreatedRoutineDetail`,
    `CompletionKeepsTotals`, `JoinedCompletion`) state the model's order; under MySQL only the
    multiset of each array is fixed. */
module Queries {
  import opened Tables

  // ---------------------------------------------------------------------------------------
  // Per-set costs and their sums

  /** `duration_in_seconds_per_set * set_counts`. */
  function DurationCost(e: Exercise): nat {
    e.durationInSecondsPerSet * e.setCounts
  }

  /** `calories_used * set_counts`. */
  function CalorieCost(e: Exercise): nat {
    e.caloriesUsed * e.setCounts
  }

  predicate InCatalog(catalog: Catalog, rows: seq<RoutineExercise>) {
    forall k :: 0 <= k < |rows| ==> rows[k].exerciseId in catalog
  }

  /** `SUM(cost)` over the exercises that the rows link. */
  function Weighted(catalog: Catalog, rows: seq<RoutineExercise>, cost: Exercise -> nat): nat
    requires InCatalog(catalog, rows)
  {
    if rows == [] then 0
    else cost(catalog[rows[0].exerciseId]) + Weighted(catalog, rows[1..], cost)
  }

  /** The same sum, over a list of exercise ids: the reference the stored totals are checked
      against. */
  function CostOfIds(catalog: Catalog, ids: seq<int>, cost: Exercise -> nat): nat
    requires forall k :: 0 <= k < |ids| ==> ids[k] in catalog
  {
    if ids == [] then 0 else CostOfIds(catalog, ids[..|ids| - 1], cost) + cost(catalog[ids[|ids| - 1]])
  }

  /** A sum over rows only depends on the exercises the rows link, in order; the completion
      flags and the row ids play no part. */
  lemma {:induction false} WeightedOnlyExercises(catalog: Catalog, a: seq<RoutineExercise>,
                                                 b: seq<RoutineExercise>, cost: Exercise -> nat)
    requires InCatalog(catalog, a)
    requires |a| == |b| && forall k :: 0 <= k < |a| ==> a[k].exerciseId == b[k].exerciseId
    ensures InCatalog(catalog, b)
    ensures Weighted(catalog, a, cost) == Weighted(catalog, b, cost)
  {
    if a != [] {
      WeightedOnlyExercises(catalog, a[1..], b[1..], cost);
    }
  }

  /** The sum over the rows inserted for a list of ids is the sum over those ids. */
  lemma {:induction false} WeightedOfLinkRows(catalog: Catalog, routineId: nat, firstRowId: nat,
                                              ids: seq<int>, cost: Exercise -> nat)
    requires forall k :: 0 <= k < |ids| ==> ids[k] in catalog
    ensures InCatalog(catalog, LinkRows(routineId, firstRowId, ids))
    ensures Weighted(catalog, LinkRows(routineId, firstRowId, ids), cost) == CostOfIds(catalog, ids, cost)
  {
    var rows := LinkRows(routineId, firstRowId, ids);
    if ids != [] {
      var front := ids[..|ids| - 1];
      var last := ids[|ids| - 1];
      WeightedOfLinkRows(catalog, routineId, firstRowId, front, cost);
      assert rows == LinkRows(routineId, firstRowId, front)
                     + [RoutineExercise(firstRowId + |front|, routineId, last, false)];
      WeightedAppend(catalog, LinkRows(routineId, firstRowId, front),
                     [RoutineExercise(firstRowId + |front|, routineId, last, false)], cost);
    }
  }

  /** A sum over two row lists one after the other is the sum of the two sums. */
  lemma {:induction false} WeightedAppend(catalog: Catalog, a: seq<RoutineExercise>,
                                          b: seq<RoutineExercise>, cost: Exercise -> nat)
    requires InCatalog(catalog, a) && InCatalog(catalog, b)
    ensures InCatalog(catalog, a + b)
    ensures Weighted(catalog, a + b, cost) == Weighted(catalog, a, cost) + Weighted(catalog, b, cost)
  {
    if a == [] {
      assert a + b == b;
    } else {
      assert (a + b)[1..] == a[1..] + b;
      WeightedAppend(catalog, a[1..], b, cost);
    }
  }

  // ---------------------------------------------------------------------------------------
  // The routine detail (getExerciseByRoutineId)

  /** One element of the `exercises` array of the detail: the catalog record and the join row's
      completion flag. */
  datatype ExerciseEntry = ExerciseEntry(id: int, name: string, isPremium: bool, caloriesUsed: nat,
                                         durationInSecondsPerSet: nat, setCounts: nat,
                                         isCompleted: bool)

  /** The grouped row of the detail query. `isCustom` is absent when the left join to
      `routines` finds no row. */
  datatype RoutineDetail = RoutineDetail(routineId: nat, totalDuration: nat, totalCaloriesUsed: nat,
                                         exerciseIds: seq<int>, exercises: seq<ExerciseEntry>,
                                         isCustom: Option<int>)

  /** `WHERE routine_id = id` on the join of `exercises` with `routine_exercises`: the rows of
      the routine whose exercise is in the catalog. */
  function JoinedTo(catalog: Catalog, id: int): RoutineExercise -> bool {
    (row: RoutineExercise) => row.routineId == id && row.exerciseId in catalog
  }

  function Joined(catalog: Catalog, links: seq<RoutineExercise>, id: int): (r: seq<RoutineExercise>)
    ensures InCatalog(catalog, r)
  {
    Filter(links, JoinedTo(catalog, id))
  }

  /** `routines.is_custom` of the routine with this id, by the left join. */
  function CustomFlagById(routines: seq<Routine>, id: int): (r: Option<int>)
    ensures r.Some? <==> HasRoutine(routines, id)
    ensures r.Some? ==> exists i :: 0 <= i < |routines| && routines[i].id == id && routines[i].isCustom == r.value
  {
    if routines == [] then None
    else if routines[0].id == id then Some(routines[0].isCustom)
    else
      var r := CustomFlagById(routines[1..], id);
      assert HasRoutine(routines[1..], id) ==> HasRoutine(routines, id) by {
        if HasRoutine(routines[1..], id) {
          var i :| 0 <= i < |routines[1..]| && routines[1..][i].id == id;
          assert routines[i + 1].id == id;
        }
      }
      assert HasRoutine(routines, id) ==> HasRoutine(routines[1..], id) by {
        if HasRoutine(routines, id) {
          var i :| 0 <= i < |routines| && routines[i].id == id;
          assert routines[1..][i - 1].id == id;
        }
      }
      assert r.Some? ==> exists i :: 0 <= i < |routines| && routines[i].id == id && routines[i].isCustom == r.value by {
        if r.Some? {
          var i :| 0 <= i < |routines[1..]| && routines[1..][i].id == id && routines[1..][i].isCustom == r.value;
          assert routines[i + 1] == routines[1..][i];
        }
      }
      r
  }

  function EntryOf(catalog: Catalog): RoutineExercise -> ExerciseEntry {
    (row: RoutineExercise) =>
      if row.exerciseId in catalog then
        var e := catalog[row.exerciseId];
        ExerciseEntry(row.exerciseId, e.name, e.isPremium, e.caloriesUsed, e.durationInSecondsPerSet,
                      e.setCounts, row.completed)
      else ExerciseEntry(row.exerciseId, "", false, 0, 0, 0, row.completed)
  }

  function ExerciseIdOf(row: RoutineExercise): int {
    row.exerciseId
  }

  /** At most one grouped row: none when the routine has no row in the inner join, otherwise the
      two sums, the linked exercise ids, one entry per linked exercise, and the routine's custom
      flag. */
  function DetailOf(catalog: Catalog, routines: seq<Routine>, links: seq<RoutineExercise>, id: int)
    : (r: seq<RoutineDetail>)
    ensures |r| <= 1
    ensures r == [] <==> Joined(catalog, links, id) == []
    ensures r != [] ==> r[0].routineId == id && |r[0].exerciseIds| == |r[0].exercises|
  {
    var rows := Joined(catalog, links, id);
    if rows == [] then []
    else
      assert id >= 0 by { assert rows[0] in links; }
      [RoutineDetail(id, Weighted(catalog, rows, DurationCost), Weighted(catalog, rows, CalorieCost),
                     MapRows(rows, ExerciseIdOf), MapRows(rows, EntryOf(catalog)),
                     CustomFlagById(routines, id))]
  }

  /** The detail lists exactly the exercise ids linked to the routine (and in the catalog), and
      each entry is that exercise's catalog record with that join row's completion flag. */
  lemma {:induction false} DetailLinksExactly(catalog: Catalog, routines: seq<Routine>,
                                              links: seq<RoutineExercise>, id: int)
    requires DetailOf(catalog, routines, links, id) != []
    ensures var d := DetailOf(catalog, routines, links, id)[0];
            (forall x :: x in d.exerciseIds <==>
               exists k :: 0 <= k < |links| && links[k].routineId == id && links[k].exerciseId in catalog
                           && x == links[k].exerciseId)
            && (forall j :: 0 <= j < |d.exercises| ==>
                  d.exercises[j].id == d.exerciseIds[j]
                  && d.exercises[j].name == catalog[d.exerciseIds[j]].name
                  && d.exercises[j].isPremium == catalog[d.exerciseIds[j]].isPremium
                  && exists k :: 0 <= k < |links| && links[k].routineId == id
                                 && links[k].exerciseId == d.exerciseIds[j]
                                 && links[k].completed == d.exercises[j].isCompleted)
  {
    var rows := Joined(catalog, links, id);
    var d := DetailOf(catalog, routines, links, id)[0];
    MappedSelection(links, JoinedTo(catalog, id), ExerciseIdOf);
    forall j | 0 <= j < |d.exercises|
      ensures exists k :: 0 <= k < |links| && links[k].routineId == id
                          && links[k].exerciseId == d.exerciseIds[j]
                          && links[k].completed == d.exercises[j].isCompleted
    {
      assert rows[j] in links;
      var k :| 0 <= k < |links| && links[k] == rows[j];
    }
  }

  /** When every join row's exercise is in the catalog, the detail lists exactly the exercise
      ids linked to the routine. */
  lemma {:induction false} DetailIdsExactly(catalog: Catalog, routines: seq<Routine>,
                                            links: seq<RoutineExercise>, id: int)
    requires InCatalog(catalog, links)
    requires DetailOf(catalog, routines, links, id) != []
    ensures Elems(DetailOf(catalog, routines, links, id)[0].exerciseIds) == LinkedExerciseIds(links, id)
  {
    var d := DetailOf(catalog, routines, links, id)[0];
    var p := JoinedTo(catalog, id);
    MappedSelection(links, p, ExerciseIdOf);
    forall x ensures x in Elems(d.exerciseIds) <==> x in LinkedExerciseIds(links, id) {
      if x in LinkedExerciseIds(links, id) {
        var k :| 0 <= k < |links| && links[k].routineId == id && links[k].exerciseId == x;
        assert p(links[k]) && x == ExerciseIdOf(links[k]);
      }
      if x in Elems(d.exerciseIds) {
        assert x in d.exerciseIds;
        var k :| 0 <= k < |links| && p(links[k]) && x == ExerciseIdOf(links[k]);
      }
    }
  }

  /** When every join row refers to an existing routine, the detail carries that routine's
      custom flag. */
  lemma {:induction false} DetailHasCustomFlag(catalog: Catalog, routines: seq<Routine>,
                                               links: seq<RoutineExercise>, id: int)
    requires forall k :: 0 <= k < |links| ==> HasRoutine(routines, links[k].routineId)
    requires DetailOf(catalog, routines, links, id) != []
    ensures DetailOf(catalog, routines, links, id)[0].isCustom.Some?
    ensures exists i :: 0 <= i < |routines| && routines[i].id == id
                        && DetailOf(catalog, routines, links, id)[0].isCustom == Some(routines[i].isCustom)
  {
    var rows := Joined(catalog, links, id);
    assert JoinedTo(catalog, id)(rows[0]);
    assert rows[0] in links;
    var k :| 0 <= k < |links| && links[k] == rows[0];
    assert HasRoutine(routines, links[k].routineId);
  }

  /** Create, then fetch: the detail of a freshly created routine lists exactly the requested
      exercise ids, in order, none completed, with the totals summed over those ids and the
      custom flag it was created with. */
  lemma {:induction false} CreatedRoutineDetail(catalog: Catalog, users: Users, routines: seq<Routine>,
                                                links: seq<RoutineExercise>, nextRoutineId: nat,
                                                nextRowId: nat, userId: int, isCustom: int,
                                                name: Option<string>, now: nat, ids: seq<int>)
    requires TablesValid(catalog, users, routines, links, nextRoutineId, nextRowId)
    requires CreateAccepted(catalog, users, userId, ids)
    ensures var d := DetailOf(catalog, routines + [Routine(nextRoutineId, userId, isCustom, name, now, None)],
                              links + LinkRows(nextRoutineId, nextRowId, ids), nextRoutineId);
            |d| == 1
            && d[0].exerciseIds == ids
            && (forall j :: 0 <= j < |d[0].exercises| ==> !d[0].exercises[j].isCompleted)
            && d[0].totalDuration == CostOfIds(catalog, ids, DurationCost)
            && d[0].totalCaloriesUsed == CostOfIds(catalog, ids, CalorieCost)
            && d[0].isCustom == Some(isCustom)
  {
    var routines' := routines + [Routine(nextRoutineId, userId, isCustom, name, now, None)];
    var added := LinkRows(nextRoutineId, nextRowId, ids);
    var links' := links + added;
    CreatedJoin(catalog, routines, links, nextRoutineId, nextRowId, ids);
    WeightedOfLinkRows(catalog, nextRoutineId, nextRowId, ids, DurationCost);
    WeightedOfLinkRows(catalog, nextRoutineId, nextRowId, ids, CalorieCost);
    assert !HasRoutine(routines, nextRoutineId) by {
      forall i | 0 <= i < |routines| ensures routines[i].id != nextRoutineId {
        assert routines[i].id < nextRoutineId;
      }
    }
    CustomFlagOfLast(routines, Routine(nextRoutineId, userId, isCustom, name, now, None));
    var d := DetailOf(catalog, routines', links', nextRoutineId);
    assert d[0].exerciseIds == ids;
  }

  /** Right after a creation, the inner join of the new routine finds exactly the inserted rows:
      every earlier row refers to an earlier routine, and every inserted exercise is in the
      catalog. */
  lemma {:induction false} CreatedJoin(catalog: Catalog, routines: seq<Routine>, links: seq<RoutineExercise>,
                                       nextRoutineId: nat, nextRowId: nat, ids: seq<int>)
    requires forall k :: 0 <= k < |links| ==> HasRoutine(routines, links[k].routineId)
    requires forall i :: 0 <= i < |routines| ==> routines[i].id < nextRoutineId
    requires forall k :: 0 <= k < |ids| ==> ids[k] in catalog
    ensures Joined(catalog, links + LinkRows(nextRoutineId, nextRowId, ids), nextRoutineId)
            == LinkRows(nextRoutineId, nextRowId, ids)
  {
    var added := LinkRows(nextRoutineId, nextRowId, ids);
    var p := JoinedTo(catalog, nextRoutineId);
    forall k | 0 <= k < |links| ensures !p(links[k]) {
      assert HasRoutine(routines, links[k].routineId);
      var i :| 0 <= i < |routines| && routines[i].id == links[k].routineId;
    }
    forall k | 0 <= k < |added| ensures p(added[k]) {
      assert added[k].exerciseId == ids[k];
    }
    FilterAppend(links, added, p);
    FilterNoneAll(links, p);
    FilterNoneAll(added, p);
    assert Filter(links, p) + Filter(added, p) == [] + added;
  }

  /** The left join finds a routine appended under an id no earlier row has. */
  lemma {:induction false} CustomFlagOfLast(routines: seq<Routine>, r: Routine)
    requires !HasRoutine(routines, r.id)
    ensures CustomFlagById(routines + [r], r.id) == Some(r.isCustom)
  {
    if routines == [] {
    } else {
      assert (routines + [r])[1..] == routines[1..] + [r];
      forall i | 0 <= i < |routines[1..]| ensures routines[1..][i].id != r.id {
        assert routines[1..][i] == routines[i + 1];
      }
      assert routines[0].id != r.id;
      CustomFlagOfLast(routines[1..], r);
    }
  }

  /** Completion updates do not change what a routine costs: after an update, the detail has the
      same totals and exercise ids and each entry's flag says whether it was among the ids. */
  lemma {:induction false} CompletionKeepsTotals(catalog: Catalog, routines: seq<Routine>,
                                                 links: seq<RoutineExercise>, id: int, ids: seq<int>)
    ensures var before := DetailOf(catalog, routines, links, id);
            var after := DetailOf(catalog, routines, CompletionOverwrite(links, id, ids), id);
            |after| == |before|
            && (after != [] ==>
                  after[0].totalDuration == before[0].totalDuration
                  && after[0].totalCaloriesUsed == before[0].totalCaloriesUsed
                  && after[0].exerciseIds == before[0].exerciseIds
                  && forall j :: 0 <= j < |after[0].exercises| ==>
                       (after[0].exercises[j].isCompleted <==> after[0].exerciseIds[j] in ids))
  {
    var links' := CompletionOverwrite(links, id, ids);
    JoinedCompletion(catalog, links, id, ids);
    var rows, rows' := Joined(catalog, links, id), Joined(catalog, links', id);
    if rows != [] {
      WeightedOnlyExercises(catalog, rows, rows', DurationCost);
      WeightedOnlyExercises(catalog, rows, rows', CalorieCost);
      var before := DetailOf(catalog, routines, links, id);
      var after := DetailOf(catalog, routines, links', id);
      assert after[0].exerciseIds == before[0].exerciseIds;
    }
  }

  /** The inner join of a routine after a completion update: the same rows in the same order,
      each flagged by whether its exercise is among the ids. */
  lemma {:induction false} JoinedCompletion(catalog: Catalog, links: seq<RoutineExercise>, id: int, ids: seq<int>)
    ensures var rows := Joined(catalog, links, id);
            var rows' := Joined(catalog, CompletionOverwrite(links, id, ids), id);
            |rows'| == |rows|
            && forall k :: 0 <= k < |rows| ==>
                 rows'[k] == rows[k].(completed := rows[k].exerciseId in ids)
  {
    var p, f := JoinedTo(catalog, id), MarkCompleted(id, ids);
    forall x ensures p(f(x)) == p(x) {
    }
    FilterMapCommute(links, p, f);
    var rows := Joined(catalog, links, id);
    forall k | 0 <= k < |rows| ensures f(rows[k]) == rows[k].(completed := rows[k].exerciseId in ids) {
      assert p(rows[k]);
    }
  }

  // ---------------------------------------------------------------------------------------
  // TIME_FORMAT(SEC_TO_TIME(seconds), "%i:%s")

  /** The largest TIME value, 838:59:59, in seconds; SEC_TO_TIME clips to it. */
  const MaxTimeSeconds: nat := 3020399

  function Digit(d: nat): char
    requires d < 10
  {
    "0123456789"[d]
  }

  function DigitValue(c: char): nat {
    if '0' <= c <= '9' then (c as int - '0' as int) as nat else 0
  }

  predicate IsDigit(c: char) {
    '0' <= c <= '9'
  }

  function TwoDigits(n: nat): string
    requires n < 100
  {
    [Digit(n / 10), Digit(n % 10)]
  }

  /** `SEC_TO_TIME` saturates at the largest TIME value. */
  function Clip(total: nat): nat {
    if total <= MaxTimeSeconds then total else MaxTimeSeconds
  }

  /** Two-digit minutes within the hour, a colon, two-digit seconds. */
  function MinutesSeconds(total: nat): (s: string)
    ensures |s| == 5 && s[2] == ':'
    ensures IsDigit(s[0]) && IsDigit(s[1]) && IsDigit(s[3]) && IsDigit(s[4])
    ensures DigitValue(s[0]) < 6 && DigitValue(s[3]) < 6
  {
    var t := Clip(total);
    TwoDigits(t / 60 % 60) + ":" + TwoDigits(t % 60)
  }

  /** Reads an "mm:ss" text back as a number of seconds. */
  function ParseMinutesSeconds(s: string): Option<nat> {
    if |s| == 5 && s[2] == ':' && IsDigit(s[0]) && IsDigit(s[1]) && IsDigit(s[3]) && IsDigit(s[4])
    then Some((DigitValue(s[0]) * 10 + DigitValue(s[1])) * 60 + DigitValue(s[3]) * 10 + DigitValue(s[4]))
    else None
  }

  lemma {:induction false} DigitRoundTrip(d: nat)
    requires d < 10
    ensures IsDigit(Digit(d)) && DigitValue(Digit(d)) == d
  {
    var ds := "0123456789";
    assert ds[0] == '0' && ds[1] == '1' && ds[2] == '2' && ds[3] == '3' && ds[4] == '4';
    assert ds[5] == '5' && ds[6] == '6' && ds[7] == '7' && ds[8] == '8' && ds[9] == '9';
  }

  lemma {:induction false} SplitSeconds(t: nat)
    ensures t % 3600 == (t / 60 % 60) * 60 + t % 60
  {
    var q, s := t / 60, t % 60;
    var h, m := q / 60, q % 60;
    assert t == 60 * q + s;
    assert q == 60 * h + m;
    assert t == 3600 * h + (60 * m + s);
    assert 0 <= 60 * m + s < 3600;
  }

  /** Two two-digit fields read back as minutes times sixty plus seconds. */
  lemma {:induction false} FieldsRoundTrip(m: nat, s: nat)
    requires m < 60 && s < 60
    ensures ParseMinutesSeconds(TwoDigits(m) + ":" + TwoDigits(s)) == Some(m * 60 + s)
  {
    var text := TwoDigits(m) + ":" + TwoDigits(s);
    assert text == [Digit(m / 10), Digit(m % 10), ':', Digit(s / 10), Digit(s % 10)];
    DigitRoundTrip(m / 10);
    DigitRoundTrip(m % 10);
    DigitRoundTrip(s / 10);
    DigitRoundTrip(s % 10);
    assert (m / 10 * 10 + m % 10) * 60 + s / 10 * 10 + s % 10 == m * 60 + s;
  }

  /** The minutes and seconds fields of a number of seconds read back as its seconds within
      the hour. */
  lemma {:induction false} SecondsFieldsRoundTrip(t: nat)
    ensures ParseMinutesSeconds(TwoDigits(t / 60 % 60) + ":" + TwoDigits(t % 60)) == Some(t % 3600)
  {
    FieldsRoundTrip(t / 60 % 60, t % 60);
    SplitSeconds(t);
  }

  /** The rendered duration reads back as the clipped seconds within the hour: hours are lost,
      minutes and seconds are exact. */
  lemma {:induction false} MinutesSecondsRoundTrip(total: nat)
    ensures ParseMinutesSeconds(MinutesSeconds(total)) == Some(Clip(total) % 3600)
  {
    var t := Clip(total);
    assert MinutesSeconds(total) == TwoDigits(t / 60 % 60) + ":" + TwoDigits(t % 60);
    SecondsFieldsRoundTrip(t);
  }

  /** A duration under an hour is rendered exactly. */
  lemma {:induction false} MinutesSecondsUnderAnHour(total: nat)
    requires total < 3600
    ensures ParseMinutesSeconds(MinutesSeconds(total)) == Some(total)
  {
    MinutesSecondsRoundTrip(total);
    SecondsWithinHour(total);
  }

  lemma {:induction false} SecondsWithinHour(total: nat)
    requires total < 3600
    ensures Clip(total) % 3600 == total
  {
    assert Clip(total) == total;
  }

  /** A whole hour more renders the same (below the TIME clip). */
  lemma {:induction false} MinutesSecondsDropsHours(total: nat)
    requires total + 3600 <= MaxTimeSeconds
    ensures MinutesSeconds(total + 3600) == MinutesSeconds(total)
  {
    var t := total + 3600;
    assert t / 60 == total / 60 + 60;
    assert t / 60 % 60 == total / 60 % 60;
    assert t % 60 == total % 60;
  }

  // ---------------------------------------------------------------------------------------
  // The custom routines of a user (routinesByUser)

  /** One grouped row of the list: the routine, the names and set counts of its exercises, its
      total duration as "mm:ss", and its effective date. */
  datatype Summary = Summary(routineId: nat, routineName: Option<string>, exerciseNames: seq<string>,
                             setCounts: seq<nat>, totalDuration: string, createDate: nat)

  /** `IF(ISNULL(updated_at), created_at, updated_at)`. */
  function EffectiveDate(r: Routine): nat {
    if r.updatedAt.Some? then r.updatedAt.value else r.createdAt
  }

  /** Owned by the user, custom, and with at least one exercise in the inner joins. */
  function Listed(catalog: Catalog, links: seq<RoutineExercise>, userId: int): Routine -> bool {
    (r: Routine) => r.userId == userId && r.isCustom == 1 && Joined(catalog, links, r.id) != []
  }

  function SummaryOf(catalog: Catalog, links: seq<RoutineExercise>): Routine -> Summary {
    (r: Routine) =>
      var rows := Joined(catalog, links, r.id);
      Summary(r.id, r.name,
              MapRows(rows, (row: RoutineExercise) => if row.exerciseId in catalog then catalog[row.exerciseId].name else ""),
              MapRows(rows, (row: RoutineExercise) => if row.exerciseId in catalog then catalog[row.exerciseId].setCounts else 0),
              MinutesSeconds(Weighted(catalog, rows, DurationCost)),
              EffectiveDate(r))
  }

  /** The grouped rows before ordering and pagination: one summary per listed routine, and
      nothing else. */
  function CustomSummaries(catalog: Catalog, routines: seq<Routine>, links: seq<RoutineExercise>,
                           userId: int): (r: seq<Summary>)
    ensures forall s :: s in r <==> exists i :: 0 <= i < |routines| && Listed(catalog, links, userId)(routines[i])
                                             && s == SummaryOf(catalog, links)(routines[i])
  {
    MappedSelection(routines, Listed(catalog, links, userId), SummaryOf(catalog, links));
    MapRows(Filter(routines, Listed(catalog, links, userId)), SummaryOf(catalog, links))
  }

  /** A listed summary belongs to a routine of the user that is custom and has an exercise. */
  lemma {:induction false} SummaryIsListed(catalog: Catalog, routines: seq<Routine>,
                                           links: seq<RoutineExercise>, userId: int, s: Summary)
    requires s in CustomSummaries(catalog, routines, links, userId)
    ensures exists i :: 0 <= i < |routines| && routines[i].id == s.routineId && routines[i].userId == userId
                        && routines[i].isCustom == 1 && HasLink(links, routines[i].id)
                        && s.createDate == EffectiveDate(routines[i])
                        && s == SummaryOf(catalog, links)(routines[i])
  {
    var i :| 0 <= i < |routines| && Listed(catalog, links, userId)(routines[i])
             && s == SummaryOf(catalog, links)(routines[i]);
    var rows := Joined(catalog, links, routines[i].id);
    assert rows[0] in links;
    var k :| 0 <= k < |links| && links[k] == rows[0];
  }

  predicate SortedByDateDesc(s: seq<Summary>) {
    forall i, j :: 0 <= i < j < |s| ==> s[i].createDate >= s[j].createDate
  }

  /** Every summary of a reordering of the tail of a sorted list, plus one not newer than its
      head, is not newer than that head. */
  lemma {:induction false} NotNewerThanHead(s: seq<Summary>, x: Summary, rest: seq<Summary>)
    requires s != [] && SortedByDateDesc(s) && x.createDate <= s[0].createDate
    requires multiset(rest) == multiset(s[1..]) + multiset{x}
    ensures forall j :: 0 <= j < |rest| ==> rest[j].createDate <= s[0].createDate
  {
    forall j | 0 <= j < |rest| ensures rest[j].createDate <= s[0].createDate {
      var y := rest[j];
      assert y in multiset(rest);
      if y != x {
        assert y in multiset(s[1..]);
        var i :| 0 <= i < |s[1..]| && s[1..][i] == y;
        assert s[i + 1] == y;
      }
    }
  }

  /** Inserts a summary into a list ordered by date, newest first, before the first
      summary that is not newer. */
  function InsertByDate(x: Summary, s: seq<Summary>): (r: seq<Summary>)
    requires SortedByDateDesc(s)
    ensures SortedByDateDesc(r)
    ensures multiset(r) == multiset(s) + multiset{x}
  {
    if s == [] || x.createDate >= s[0].createDate then
      [x] + s
    else
      assert SortedByDateDesc(s[1..]) by {
        forall i, j | 0 <= i < j < |s[1..]| ensures s[1..][i].createDate >= s[1..][j].createDate {
          assert s[1..][i] == s[i + 1] && s[1..][j] == s[j + 1];
        }
      }
      var rest := InsertByDate(x, s[1..]);
      NotNewerThanHead(s, x, rest);
      var r := [s[0]] + rest;
      assert SortedByDateDesc(r) by {
        forall i, j | 0 <= i < j < |r| ensures r[i].createDate >= r[j].createDate {
          assert r[j] == rest[j - 1];
          if i > 0 { assert r[i] == rest[i - 1]; }
        }
      }
      assert s == [s[0]] + s[1..];
      assert multiset(r) == multiset{s[0]} + multiset(rest);
      r
  }

  /** `ORDER BY createDate DESC`: the same summaries, newest first. */
  function SortByDateDesc(s: seq<Summary>): (r: seq<Summary>)
    ensures SortedByDateDesc(r)
    ensures multiset(r) == multiset(s)
  {
    if s == [] then []
    else
      assert s == [s[0]] + s[1..];
      InsertByDate(s[0], SortByDateDesc(s[1..]))
  }

  function Min(a: nat, b: nat): nat {
    if a <= b then a else b
  }

  /** `LIMIT limit OFFSET offset`: skip `offset` rows, then keep at most `limit`. */
  function Paginate<T>(s: seq<T>, limit: nat, offset: nat): (r: seq<T>)
    ensures |r| == if offset <= |s| then Min(limit, |s| - offset) else 0
    ensures forall k :: 0 <= k < |r| ==> offset + k < |s| && r[k] == s[offset + k]
  {
    if offset >= |s| then []
    else
      var rest := s[offset..];
      if limit >= |rest| then rest else rest[..limit]
  }

  lemma {:induction false} PaginateSorted(s: seq<Summary>, limit: nat, offset: nat)
    requires SortedByDateDesc(s)
    ensures SortedByDateDesc(Paginate(s, limit, offset))
  {
    var r := Paginate(s, limit, offset);
    forall i, j | 0 <= i < j < |r| ensures r[i].createDate >= r[j].createDate {
      assert r[i] == s[offset + i] && r[j] == s[offset + j];
    }
  }

  /** The page of a user's custom routines: the listed summaries put in an order newest first
      (MySQL picks the order among equal dates), then `limit` of them from position `offset`, or
      as many as there are. */
  function CustomRoutinesPage(catalog: Catalog, routines: seq<Routine>, links: seq<RoutineExercise>,
                              userId: int, limit: nat, offset: nat): (r: seq<Summary>)
    ensures var n := |CustomSummaries(catalog, routines, links, userId)|;
            |r| == if offset <= n then Min(limit, n - offset) else 0
    ensures exists sorted :: SortedByDateDesc(sorted)
                             && multiset(sorted) == multiset(CustomSummaries(catalog, routines, links, userId))
                             && r == Paginate(sorted, limit, offset)
    ensures SortedByDateDesc(r)
    ensures forall s :: s in r ==> s in CustomSummaries(catalog, routines, links, userId)
  {
    var all := CustomSummaries(catalog, routines, links, userId);
    var sorted := SortByDateDesc(all);
    assert |sorted| == |all| by { assert |multiset(sorted)| == |multiset(all)|; }
    PaginateSorted(sorted, limit, offset);
    PageWithin(all, sorted, limit, offset);
    Paginate(sorted, limit, offset)
  }

  /** Each summary on a page is that of a custom routine of the user with an exercise, under its
      effective date. */
  lemma {:induction false} PageIsListed(catalog: Catalog, routines: seq<Routine>, links: seq<RoutineExercise>,
                                        userId: int, limit: nat, offset: nat)
    ensures forall s :: s in CustomRoutinesPage(catalog, routines, links, userId, limit, offset) ==>
              exists i :: 0 <= i < |routines| && routines[i].id == s.routineId && routines[i].userId == userId
                          && routines[i].isCustom == 1 && HasLink(links, routines[i].id)
                          && s.createDate == EffectiveDate(routines[i])
                          && s == SummaryOf(catalog, links)(routines[i])
  {
    forall s | s in CustomRoutinesPage(catalog, routines, links, userId, limit, offset)
      ensures exists i :: 0 <= i < |routines| && routines[i].id == s.routineId && routines[i].userId == userId
                          && routines[i].isCustom == 1 && HasLink(links, routines[i].id)
                          && s.createDate == EffectiveDate(routines[i])
                          && s == SummaryOf(catalog, links)(routines[i])
    {
      SummaryIsListed(catalog, routines, links, userId, s);
    }
  }

  /** A page of a reordering of a list holds only elements of that list. */
  lemma {:induction false} PageWithin(all: seq<Summary>, sorted: seq<Summary>, limit: nat, offset: nat)
    requires multiset(sorted) == multiset(all)
    ensures forall s :: s in Paginate(sorted, limit, offset) ==> s in all
  {
    var r := Paginate(sorted, limit, offset);
    forall s | s in r ensures s in all {
      var k :| 0 <= k < |r| && r[k] == s;
      assert sorted[offset + k] == s;
      assert s in multiset(sorted);
    }
  }

  /** With no pagination cut, the page holds every listed routine exactly once. */
  lemma {:induction false} WholePageIsPermutation(catalog: Catalog, routines: seq<Routine>,
                                                  links: seq<RoutineExercise>, userId: int)
    ensures var all := CustomSummaries(catalog, routines, links, userId);
            multiset(CustomRoutinesPage(catalog, routines, links, userId, |all|, 0)) == multiset(all)
  {
    var all := CustomSummaries(catalog, routines, links, userId);
    var sorted := SortByDateDesc(all);
    assert |sorted| == |all| by { assert |multiset(sorted)| == |multiset(all)|; }
    assert Paginate(sorted, |all|, 0) == sorted;
  }

  // ---------------------------------------------------------------------------------------
  // History by date (getRoutineHistoryByDate)

  /** The first grouped row: a routine id and its exercise ids; a routine without join rows
      gets the single `null` that `JSON_ARRAYAGG` makes of the left join. */
  datatype HistoryRow = HistoryRow(routineId: nat, exercises: seq<Option<int>>)

  /** `routines.user_id = userId AND created_at >= startDate AND created_at < endDate`. */
  function InWindow(userId: int, startDate: nat, endDate: nat): Routine -> bool {
    (r: Routine) => r.userId == userId && startDate <= r.createdAt < endDate
  }

  /** `JSON_ARRAYAGG(routine_exercises.exercise_id)` over the left join of one routine: the single
      `null` exactly when the routine has no join row, otherwise one id per join row and no `null`. */
  function LeftJoinedExercises(links: seq<RoutineExercise>, id: int): (r: seq<Option<int>>)
    ensures r != []
    ensures r == [None] <==> !HasLink(links, id)
    ensures HasLink(links, id) ==>
              |r| == |Filter(links, InRoutine(id))|
              && (forall k :: 0 <= k < |r| ==> r[k].Some?)
              && forall x :: Some(x) in r <==> x in LinkedExerciseIds(links, id)
  {
    var rows := Filter(links, InRoutine(id));
    RoutineRowsExist(links, id);
    if rows == [] then [None]
    else
      var r := SomeIds(rows);
      assert r[0].Some?;
      SomeIdsAreLinked(links, id);
      r
  }

  /** The ids of the rows, each wrapped as a non-null value. */
  function SomeIds(rows: seq<RoutineExercise>): (r: seq<Option<int>>)
    ensures |r| == |rows| && forall k :: 0 <= k < |rows| ==> r[k] == Some(rows[k].exerciseId)
  {
    seq(|rows|, k requires 0 <= k < |rows| => Some(rows[k].exerciseId))
  }

  /** The ids of the rows `WHERE routine_id = id` selects are the routine's linked ids. */
  lemma {:induction false} SomeIdsAreLinked(links: seq<RoutineExercise>, id: int)
    ensures forall x :: Some(x) in SomeIds(Filter(links, InRoutine(id))) <==> x in LinkedExerciseIds(links, id)
  {
    var rows := Filter(links, InRoutine(id));
    var r := SomeIds(rows);
    forall x ensures Some(x) in r <==> x in LinkedExerciseIds(links, id) {
      if Some(x) in r {
        var j :| 0 <= j < |r| && r[j] == Some(x);
        assert rows[j] in links;
        var k :| 0 <= k < |links| && links[k] == rows[j];
      }
      if x in LinkedExerciseIds(links, id) {
        var k :| 0 <= k < |links| && links[k].routineId == id && links[k].exerciseId == x;
        assert links[k] in rows;
        var j :| 0 <= j < |rows| && rows[j] == links[k];
        assert r[j] == Some(x);
      }
    }
  }

  /** A routine has a join row iff `WHERE routine_id = id` selects one. */
  lemma {:induction false} RoutineRowsExist(links: seq<RoutineExercise>, id: int)
    ensures Filter(links, InRoutine(id)) == [] <==> !HasLink(links, id)
  {
    var rows := Filter(links, InRoutine(id));
    if HasLink(links, id) {
      var k :| 0 <= k < |links| && links[k].routineId == id;
      assert links[k] in rows;
    }
    if rows != [] {
      assert rows[0] in links;
      var k :| 0 <= k < |links| && links[k] == rows[0];
    }
  }

  function HistoryByDate(routines: seq<Routine>, links: seq<RoutineExercise>, userId: int,
                         startDate: nat, endDate: nat): (r: Option<HistoryRow>)
    ensures r.None? <==> forall i :: 0 <= i < |routines| ==> !InWindow(userId, startDate, endDate)(routines[i])
    ensures r.Some? ==> exists i :: 0 <= i < |routines| && routines[i].id == r.value.routineId
                                    && InWindow(userId, startDate, endDate)(routines[i])
                                    && forall j :: 0 <= j < i ==> !InWindow(userId, startDate, endDate)(routines[j])
    ensures r.Some? ==> r.value.exercises == LeftJoinedExercises(links, r.value.routineId)
  {
    var hits := Filter(routines, InWindow(userId, startDate, endDate));
    FilterNoneAll(routines, InWindow(userId, startDate, endDate));
    if hits == [] then
      assert forall i :: 0 <= i < |routines| ==> !InWindow(userId, startDate, endDate)(routines[i]) by {
        forall i | 0 <= i < |routines| ensures !InWindow(userId, startDate, endDate)(routines[i]) {
          assert routines[i] in routines;
        }
      }
      None
    else
      FilterFirst(routines, InWindow(userId, startDate, endDate));
      Some(HistoryRow(hits[0].id, LeftJoinedExercises(links, hits[0].id)))
  }

  // ---------------------------------------------------------------------------------------
  // The custom-flag check (customCheck)

  /** `SELECT is_custom FROM routines WHERE user_id = userId AND id = routineId`, first row. */
  function CustomFlag(routines: seq<Routine>, userId: int, routineId: int): (r: Option<int>)
    ensures r.Some? <==> Owns(routines, userId, routineId)
    ensures r.Some? ==> exists i :: 0 <= i < |routines| && routines[i].userId == userId
                                    && routines[i].id == routineId && routines[i].isCustom == r.value
  {
    if routines == [] then None
    else if routines[0].userId == userId && routines[0].id == routineId then Some(routines[0].isCustom)
    else
      var r := CustomFlag(routines[1..], userId, routineId);
      assert Owns(routines, userId, routineId) <==> Owns(routines[1..], userId, routineId) by {
        if Owns(routines[1..], userId, routineId) {
          var i :| 0 <= i < |routines[1..]| && routines[1..][i].userId == userId && routines[1..][i].id == routineId;
          assert routines[i + 1] == routines[1..][i];
        }
        if Owns(routines, userId, routineId) {
          var i :| 0 <= i < |routines| && routines[i].userId == userId && routines[i].id == routineId;
          assert routines[1..][i - 1] == routines[i];
        }
      }
      assert r.Some? ==> exists i :: 0 <= i < |routines| && routines[i].userId == userId
                                     && routines[i].id == routineId && routines[i].isCustom == r.value by {
        if r.Some? {
          var i :| 0 <= i < |routines[1..]| && routines[1..][i].userId == userId
                   && routines[1..][i].id == routineId && routines[1..][i].isCustom == r.value;
          assert routines[i + 1] == routines[1..][i];
        }
      }
      r
  }

  /** Promote, then check: the flag read back is 1 exactly when the user owns the routine, and
      there is no row to read otherwise. */
  lemma {:induction false} PromoteThenCheck(routines: seq<Routine>, userId: int, routineId: int)
    ensures CustomFlag(Promote(routines, userId, routineId), userId, routineId)
            == if Owns(routines, userId, routineId) then Some(1) else None
  {
    var promoted := Promote(routines, userId, routineId);
    forall i | 0 <= i < |routines|
      ensures promoted[i].id == routines[i].id && promoted[i].userId == routines[i].userId
    {
      assert promoted[i].(isCustom := routines[i].isCustom) == routines[i];
    }
    if Owns(routines, userId, routineId) {
      var i :| 0 <= i < |routines| && routines[i].userId == userId && routines[i].id == routineId;
      assert promoted[i].userId == userId && promoted[i].id == routineId;
    }
  }
}
