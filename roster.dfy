/** The roster of the student points manager: the student record, the new
    roster values the click handlers compute from the old one (three
    element-wise maps and a filter), and the summary figures derived from it. */
module Roster {

  /** Opaque student identifier (a UUID string in the application). */
  type Id = string

  /** The fixed number of points one click adds or removes. */
  const PointStep: int := 25

  datatype Student = Student(id: Id, name: string, points: int, paid: bool)

  predicate HasId(ss: seq<Student>, id: Id)
  {
    exists i :: 0 <= i < |ss| && ss[i].id == id
  }

  predicate UniqueIds(ss: seq<Student>)
  {
    forall i, j :: 0 <= i < j < |ss| ==> ss[i].id != ss[j].id
  }

  /** A student's points are a non-negative multiple of the step. */
  predicate WellScored(s: Student)
  {
    s.points >= 0 && s.points % PointStep == 0
  }

  predicate AllWellScored(ss: seq<Student>)
  {
    forall i :: 0 <= i < |ss| ==> WellScored(ss[i])
  }

  /** Number of records carrying `id`. */
  function Occurrences(ss: seq<Student>, id: Id): (n: nat)
    ensures n <= |ss|
  {
    if ss == [] then 0
    else Occurrences(ss[..|ss| - 1], id) + (if ss[|ss| - 1].id == id then 1 else 0)
  }

  // ---------------------------------------------------------------------
  // The new roster values computed by the click handlers
  // ---------------------------------------------------------------------

  /** The plus button: every record with `id` gains exactly one step of
      points and nothing else about it changes; every other record is left
      as it is, so an unknown id leaves the roster identical. */
  function AddPointsTo(ss: seq<Student>, id: Id): (r: seq<Student>)
    ensures |r| == |ss|
    ensures forall i :: 0 <= i < |ss| && ss[i].id != id ==> r[i] == ss[i]
    ensures forall i :: 0 <= i < |ss| && ss[i].id == id ==>
              r[i].points == ss[i].points + PointStep && r[i].(points := ss[i].points) == ss[i]
    ensures !HasId(ss, id) ==> r == ss
    ensures AllWellScored(ss) ==> AllWellScored(r)
  {
    seq(|ss|, i requires 0 <= i < |ss| =>
      if ss[i].id == id then ss[i].(points := ss[i].points + PointStep) else ss[i])
  }

  /** The minus button: a record with `id` loses one step only when it holds
      at least one step; otherwise it is left as it is, so points that were
      non-negative stay non-negative. Every other record is left as it is. */
  function RemovePointsFrom(ss: seq<Student>, id: Id): (r: seq<Student>)
    ensures |r| == |ss|
    ensures forall i :: 0 <= i < |ss| && (ss[i].id != id || ss[i].points < PointStep) ==> r[i] == ss[i]
    ensures forall i :: 0 <= i < |ss| && ss[i].id == id && ss[i].points >= PointStep ==>
              r[i].points == ss[i].points - PointStep && r[i].(points := ss[i].points) == ss[i]
    ensures forall i :: 0 <= i < |ss| && ss[i].points >= 0 ==> r[i].points >= 0
    ensures !HasId(ss, id) ==> r == ss
    ensures AllWellScored(ss) ==> AllWellScored(r)
  {
    seq(|ss|, i requires 0 <= i < |ss| =>
      if ss[i].id == id && ss[i].points >= PointStep then ss[i].(points := ss[i].points - PointStep) else ss[i])
  }

  /** The confirmed payment toggle: every record with `id` has its paid flag
      negated and nothing else about it changes; every other record is left
      as it is. */
  function FlipPaid(ss: seq<Student>, id: Id): (r: seq<Student>)
    ensures |r| == |ss|
    ensures forall i :: 0 <= i < |ss| && ss[i].id != id ==> r[i] == ss[i]
    ensures forall i :: 0 <= i < |ss| && ss[i].id == id ==>
              r[i].paid == !ss[i].paid && r[i].(paid := ss[i].paid) == ss[i]
    ensures !HasId(ss, id) ==> r == ss
  {
    seq(|ss|, i requires 0 <= i < |ss| =>
      if ss[i].id == id then ss[i].(paid := !ss[i].paid) else ss[i])
  }

  /** The delete button: keeps exactly the records whose id differs from
      `id`, whatever their paid flag; one record is dropped per occurrence. */
  function Without(ss: seq<Student>, id: Id): (r: seq<Student>)
    ensures |r| == |ss| - Occurrences(ss, id)
    ensures |r| < |ss| <==> HasId(ss, id)
    ensures forall s :: s in r <==> s in ss && s.id != id
  {
    OccurrencesHasId(ss, id);
    if ss == [] then []
    else
      var init, last := Without(ss[..|ss| - 1], id), ss[|ss| - 1];
      assert ss == ss[..|ss| - 1] + [last];
      if last.id == id then init else init + [last]
  }

  // ---------------------------------------------------------------------
  // Summary figures
  // ---------------------------------------------------------------------

  /** Number of paid records (the length of the paid filter): none exactly
      when nobody has paid, all exactly when everybody has. */
  function PaidCount(ss: seq<Student>): (n: nat)
    ensures n <= |ss|
    ensures n == 0 <==> forall i :: 0 <= i < |ss| ==> !ss[i].paid
    ensures n == |ss| <==> forall i :: 0 <= i < |ss| ==> ss[i].paid
  {
    if ss == [] then 0
    else PaidCount(ss[..|ss| - 1]) + (if ss[|ss| - 1].paid then 1 else 0)
  }

  /** Number of unpaid records, counted independently of `PaidCount`. */
  function UnpaidCount(ss: seq<Student>): (n: nat)
    ensures n <= |ss|
  {
    if ss == [] then 0
    else UnpaidCount(ss[..|ss| - 1]) + (if ss[|ss| - 1].paid then 0 else 1)
  }

  /** Sum of all points, folded from the left starting at 0. On a roster
      whose points are non-negative multiples of the step it is one too. */
  function TotalPoints(ss: seq<Student>): (t: int)
    ensures AllWellScored(ss) ==> t >= 0 && t % PointStep == 0
  {
    if ss == [] then 0
    else
      assert AllWellScored(ss) ==> AllWellScored(ss[..|ss| - 1]) && WellScored(ss[|ss| - 1]);
      TotalPoints(ss[..|ss| - 1]) + ss[|ss| - 1].points
  }

  datatype Summary = Summary(totalStudents: nat, paidStudents: nat, pendingStudents: int, totalPoints: int)

  /** The four figures of the overview panel. Pending is computed as total
      minus paid, and it equals the number of unpaid records; the figures
      are recomputed from the roster, so they always agree with it. */
  function Summarize(ss: seq<Student>): (r: Summary)
    ensures r.totalStudents == |ss|
    ensures r.paidStudents == PaidCount(ss) && r.totalPoints == TotalPoints(ss)
    ensures r.paidStudents + r.pendingStudents == r.totalStudents
    ensures 0 <= r.paidStudents <= r.totalStudents
    ensures r.pendingStudents == UnpaidCount(ss)
    ensures AllWellScored(ss) ==> r.totalPoints >= 0 && r.totalPoints % PointStep == 0
  {
    var paid := PaidCount(ss);
    PendingIsUnpaid(ss);
    Summary(|ss|, paid, |ss| - paid, TotalPoints(ss))
  }

  // ---------------------------------------------------------------------
  // Lemmas
  // ---------------------------------------------------------------------

  /** Every record is either paid or pending. */
  lemma {:induction false} PendingIsUnpaid(ss: seq<Student>)
    ensures PaidCount(ss) + UnpaidCount(ss) == |ss|
  {
    if ss != [] {
      PendingIsUnpaid(ss[..|ss| - 1]);
    }
  }

  lemma {:induction false} OccurrencesHasId(ss: seq<Student>, id: Id)
    ensures Occurrences(ss, id) > 0 <==> HasId(ss, id)
  {
    if ss != [] {
      var init := ss[..|ss| - 1];
      OccurrencesHasId(init, id);
      if HasId(init, id) {
        var i :| 0 <= i < |init| && init[i].id == id;
        assert ss[i].id == id;
      }
      if HasId(ss, id) && ss[|ss| - 1].id != id {
        var i :| 0 <= i < |ss| && ss[i].id == id;
        assert init[i].id == id;
      }
    }
  }

  /** Filtering distributes over concatenation: the kept records of each
      part stay in their original relative order. */
  lemma {:induction false} WithoutConcat(a: seq<Student>, b: seq<Student>, id: Id)
    ensures Without(a + b, id) == Without(a, id) + Without(b, id)
  {
    if b == [] {
      assert a + b == a;
    } else {
      assert (a + b)[..|a + b| - 1] == a + b[..|b| - 1];
      WithoutConcat(a, b[..|b| - 1], id);
    }
  }

  /** Deleting an id that is not in the roster leaves it identical. */
  lemma {:induction false} WithoutAbsent(ss: seq<Student>, id: Id)
    requires !HasId(ss, id)
    ensures Without(ss, id) == ss
  {
    if ss != [] {
      var init, last := ss[..|ss| - 1], ss[|ss| - 1];
      assert last.id != id;
      forall i | 0 <= i < |init| ensures init[i].id != id {
        assert init[i] == ss[i];
      }
      WithoutAbsent(init, id);
      assert ss == init + [last];
      assert Without(ss, id) == Without(init, id) + [last];
    }
  }

  /** With unique ids, deleting the id held by record `k` removes exactly
      that record and keeps the others in order: the roster shrinks by one. */
  lemma DeleteUnique(ss: seq<Student>, id: Id, k: nat)
    requires UniqueIds(ss) && k < |ss| && ss[k].id == id
    ensures Without(ss, id) == ss[..k] + ss[k + 1..]
    ensures |Without(ss, id)| == |ss| - 1 && Occurrences(ss, id) == 1
  {
    var pre, post := ss[..k], ss[k + 1..];
    assert ss == pre + [ss[k]] + post;
    forall i | 0 <= i < |pre| ensures pre[i].id != id {
      assert pre[i] == ss[i];
    }
    forall i | 0 <= i < |post| ensures post[i].id != id {
      assert post[i] == ss[k + 1 + i];
    }
    WithoutConcat(pre + [ss[k]], post, id);
    WithoutConcat(pre, [ss[k]], id);
    WithoutAbsent(pre, id);
    WithoutAbsent(post, id);
    assert Without([ss[k]], id) == [] by {
      assert [ss[k]][..0] == [];
    }
  }

  /** Deleting keeps ids unique. */
  lemma {:induction false} WithoutUnique(ss: seq<Student>, id: Id)
    requires UniqueIds(ss)
    ensures UniqueIds(Without(ss, id))
  {
    if ss != [] {
      var init, last := ss[..|ss| - 1], ss[|ss| - 1];
      WithoutUnique(init, id);
      var w := Without(init, id);
      if last.id != id {
        forall i | 0 <= i < |w| ensures w[i].id != last.id {
          assert w[i] in init;
          var j :| 0 <= j < |init| && init[j] == w[i];
          assert ss[j] == w[i];
        }
      }
    }
  }

  /** Adding and then removing points for the same id restores the roster
      exactly when the records with that id hold no negative points. */
  lemma AddThenRemove(ss: seq<Student>, id: Id)
    ensures RemovePointsFrom(AddPointsTo(ss, id), id) == ss
            <==> forall i :: 0 <= i < |ss| && ss[i].id == id ==> ss[i].points >= 0
  {
    var r := RemovePointsFrom(AddPointsTo(ss, id), id);
    if forall i :: 0 <= i < |ss| && ss[i].id == id ==> ss[i].points >= 0 {
      assert forall i :: 0 <= i < |ss| ==> r[i] == ss[i];
    } else {
      var i :| 0 <= i < |ss| && ss[i].id == id && ss[i].points < 0;
      assert r[i].points == ss[i].points + PointStep;
    }
  }

  /** Confirming the payment toggle twice for the same id restores the roster. */
  lemma FlipPaidTwice(ss: seq<Student>, id: Id)
    ensures FlipPaid(FlipPaid(ss, id), id) == ss
  {
    var r := FlipPaid(FlipPaid(ss, id), id);
    assert forall i :: 0 <= i < |ss| ==> r[i] == ss[i];
  }

  // ---------------------------------------------------------------------
  // Repeated clicks on the same row
  // ---------------------------------------------------------------------

  /** The roster after `n` clicks on the plus button of `id`, one after
      another. */
  function AddN(ss: seq<Student>, id: Id, n: nat): seq<Student>
    decreases n
  {
    if n == 0 then ss else AddN(AddPointsTo(ss, id), id, n - 1)
  }

  /** The roster after `n` clicks on the minus button of `id`, one after
      another. */
  function RemoveN(ss: seq<Student>, id: Id, n: nat): seq<Student>
    decreases n
  {
    if n == 0 then ss else RemoveN(RemovePointsFrom(ss, id), id, n - 1)
  }

  /** How many of `n` minus clicks take effect on a record holding `p`
      points: each one does while at least one step remains. */
  function Drops(p: int, n: nat): nat
  {
    if p < 0 then 0 else if n <= p / PointStep then n else p / PointStep
  }

  /** After `n` plus clicks every record with `id` holds exactly `n` steps
      more and is otherwise unchanged; every other record is unchanged. */
  lemma {:induction false} AddNEffect(ss: seq<Student>, id: Id, n: nat)
    ensures |AddN(ss, id, n)| == |ss|
    ensures forall i :: 0 <= i < |ss| && ss[i].id != id ==> AddN(ss, id, n)[i] == ss[i]
    ensures forall i :: 0 <= i < |ss| && ss[i].id == id ==>
              AddN(ss, id, n)[i].points == ss[i].points + PointStep * n
              && AddN(ss, id, n)[i].(points := ss[i].points) == ss[i]
    decreases n
  {
    if n > 0 {
      AddNEffect(AddPointsTo(ss, id), id, n - 1);
    }
  }

  /** The first of `n` minus clicks takes effect exactly when the record
      holds at least one step, and the rest act on what is left. */
  lemma DropsFirst(p: int, n: nat)
    requires n > 0
    ensures Drops(p, n) == if p >= PointStep then 1 + Drops(p - PointStep, n - 1) else 0
  {
  }

  /** After `n` minus clicks every record with `id` has lost one step per
      click that found at least one step left, and is otherwise unchanged;
      every other record is unchanged. */
  lemma {:induction false} RemoveNEffect(ss: seq<Student>, id: Id, n: nat)
    ensures |RemoveN(ss, id, n)| == |ss|
    ensures forall i :: 0 <= i < |ss| && ss[i].id != id ==> RemoveN(ss, id, n)[i] == ss[i]
    ensures forall i :: 0 <= i < |ss| && ss[i].id == id ==>
              RemoveN(ss, id, n)[i].points == ss[i].points - PointStep * Drops(ss[i].points, n)
              && RemoveN(ss, id, n)[i].(points := ss[i].points) == ss[i]
    decreases n
  {
    if n > 0 {
      var q := RemovePointsFrom(ss, id);
      var r := RemoveN(q, id, n - 1);
      assert r == RemoveN(ss, id, n);
      RemoveNEffect(q, id, n - 1);
      forall i | 0 <= i < |ss| && ss[i].id == id
        ensures r[i].points == ss[i].points - PointStep * Drops(ss[i].points, n)
        ensures r[i].(points := ss[i].points) == ss[i]
      {
        assert q[i].id == id && q[i].(points := ss[i].points) == ss[i];
        assert r[i].points == q[i].points - PointStep * Drops(q[i].points, n - 1);
        DropsFirst(ss[i].points, n);
      }
    }
  }

  /** `n` plus clicks followed by `n` minus clicks on the same id restore
      the roster if and only if there were no clicks or every record with
      that id holds non-negative points. */
  lemma PlusNMinusN(ss: seq<Student>, id: Id, n: nat)
    ensures RemoveN(AddN(ss, id, n), id, n) == ss
            <==> n == 0 || forall i :: 0 <= i < |ss| && ss[i].id == id ==> ss[i].points >= 0
  {
    var a := AddN(ss, id, n);
    var r := RemoveN(a, id, n);
    AddNEffect(ss, id, n);
    RemoveNEffect(a, id, n);
    if n == 0 || forall i :: 0 <= i < |ss| && ss[i].id == id ==> ss[i].points >= 0 {
      forall i | 0 <= i < |ss| ensures r[i] == ss[i] {
        if ss[i].id == id {
          assert a[i].points / PointStep == ss[i].points / PointStep + n;
        }
      }
    } else {
      var i :| 0 <= i < |ss| && ss[i].id == id && ss[i].points < 0;
      assert a[i].points / PointStep < n;
      assert r[i].points != ss[i].points;
    }
  }

  lemma {:induction false} TotalPointsConcat(a: seq<Student>, b: seq<Student>)
    ensures TotalPoints(a + b) == TotalPoints(a) + TotalPoints(b)
  {
    if b == [] {
      assert a + b == a;
    } else {
      assert (a + b)[..|a + b| - 1] == a + b[..|b| - 1];
      TotalPointsConcat(a, b[..|b| - 1]);
    }
  }

  lemma {:induction false} PaidCountConcat(a: seq<Student>, b: seq<Student>)
    ensures PaidCount(a + b) == PaidCount(a) + PaidCount(b)
  {
    if b == [] {
      assert a + b == a;
    } else {
      assert (a + b)[..|a + b| - 1] == a + b[..|b| - 1];
      PaidCountConcat(a, b[..|b| - 1]);
    }
  }

  /** Replacing record `k` changes the total by the difference in its points
      and the paid count by the difference in its paid flag. */
  lemma ReplaceOne(ss: seq<Student>, k: nat, x: Student)
    requires k < |ss|
    ensures TotalPoints(ss[k := x]) == TotalPoints(ss) - ss[k].points + x.points
    ensures PaidCount(ss[k := x]) == PaidCount(ss) - (if ss[k].paid then 1 else 0) + (if x.paid then 1 else 0)
  {
    var pre, post := ss[..k], ss[k + 1..];
    SplitAt(ss, k);
    assert ss[k := x] == pre + [x] + post;
    Single(x);
    Single(ss[k]);
    TotalPointsConcat(pre + [ss[k]], post);
    TotalPointsConcat(pre, [ss[k]]);
    TotalPointsConcat(pre + [x], post);
    TotalPointsConcat(pre, [x]);
    PaidCountConcat(pre + [ss[k]], post);
    PaidCountConcat(pre, [ss[k]]);
    PaidCountConcat(pre + [x], post);
    PaidCountConcat(pre, [x]);
  }

  /** With unique ids, the plus button on record `k` raises the point total
      by exactly one step and leaves the paid count alone. */
  lemma AddPointsKeepsTotalsInSync(ss: seq<Student>, id: Id, k: nat)
    requires UniqueIds(ss) && k < |ss| && ss[k].id == id
    ensures TotalPoints(AddPointsTo(ss, id)) == TotalPoints(ss) + PointStep
    ensures PaidCount(AddPointsTo(ss, id)) == PaidCount(ss)
  {
    var r := AddPointsTo(ss, id);
    forall i | 0 <= i < |ss| && i != k ensures r[i] == ss[i] {
      assert ss[i].id != id;
    }
    assert r == ss[k := r[k]];
    ReplaceOne(ss, k, r[k]);
  }

  /** With unique ids, the minus button on record `k` lowers the point total
      by one step exactly when the record held at least one step. */
  lemma RemovePointsKeepsTotalsInSync(ss: seq<Student>, id: Id, k: nat)
    requires UniqueIds(ss) && k < |ss| && ss[k].id == id
    ensures TotalPoints(RemovePointsFrom(ss, id))
              == TotalPoints(ss) - (if ss[k].points >= PointStep then PointStep else 0)
    ensures PaidCount(RemovePointsFrom(ss, id)) == PaidCount(ss)
  {
    var r := RemovePointsFrom(ss, id);
    forall i | 0 <= i < |ss| && i != k ensures r[i] == ss[i] {
      assert ss[i].id != id;
    }
    assert r == ss[k := r[k]];
    ReplaceOne(ss, k, r[k]);
  }

  /** With unique ids, a confirmed toggle on record `k` moves it between paid
      and pending and leaves the point total alone. */
  lemma FlipPaidKeepsTotalsInSync(ss: seq<Student>, id: Id, k: nat)
    requires UniqueIds(ss) && k < |ss| && ss[k].id == id
    ensures TotalPoints(FlipPaid(ss, id)) == TotalPoints(ss)
    ensures PaidCount(FlipPaid(ss, id)) == PaidCount(ss) + (if ss[k].paid then -1 else 1)
  {
    var r := FlipPaid(ss, id);
    forall i | 0 <= i < |ss| && i != k ensures r[i] == ss[i] {
      assert ss[i].id != id;
    }
    assert r == ss[k := r[k]];
    ReplaceOne(ss, k, r[k]);
  }

  /** With unique ids, deleting record `k` takes exactly its points out of
      the total and its paid flag out of the paid count. */
  lemma DeleteKeepsTotalsInSync(ss: seq<Student>, id: Id, k: nat)
    requires UniqueIds(ss) && k < |ss| && ss[k].id == id
    ensures TotalPoints(Without(ss, id)) == TotalPoints(ss) - ss[k].points
    ensures PaidCount(Without(ss, id)) == PaidCount(ss) - (if ss[k].paid then 1 else 0)
  {
    DeleteUnique(ss, id, k);
    RemoveAt(ss, k);
  }

  /** Dropping record `k` takes its points out of the total and its paid
      flag out of the paid count. */
  lemma RemoveAt(ss: seq<Student>, k: nat)
    requires k < |ss|
    ensures TotalPoints(ss[..k] + ss[k + 1..]) == TotalPoints(ss) - ss[k].points
    ensures PaidCount(ss[..k] + ss[k + 1..]) == PaidCount(ss) - (if ss[k].paid then 1 else 0)
  {
    var pre, post := ss[..k], ss[k + 1..];
    SplitAt(ss, k);
    Single(ss[k]);
    TotalPointsConcat(pre + [ss[k]], post);
    TotalPointsConcat(pre, [ss[k]]);
    TotalPointsConcat(pre, post);
    PaidCountConcat(pre + [ss[k]], post);
    PaidCountConcat(pre, [ss[k]]);
    PaidCountConcat(pre, post);
  }

  lemma SplitAt(ss: seq<Student>, k: nat)
    requires k < |ss|
    ensures ss == ss[..k] + [ss[k]] + ss[k + 1..]
  {
  }

  lemma Single(x: Student)
    ensures TotalPoints([x]) == x.points && PaidCount([x]) == (if x.paid then 1 else 0)
  {
    assert [x][..0] == [];
  }
}
