/**
 * The evaluations of a listing: at most one per account, upserted by
 * `rateProperty`, averaged into `noteMoyenne`, and read back per caller by
 * `getPropertyWithRating`. Notes are exact rationals (`real`), not
 * floating-point numbers.
 */
module Ratings {
  import opened Base

  datatype Evaluation = Evaluation(utilisateur: Id, note: real)

  /** `evaluations.find(e => e.utilisateur == uid)`, as a position: the first evaluation by uid, or -1. */
  function FindEvaluation(evs: seq<Evaluation>, uid: Id): (r: int)
    ensures -1 <= r < |evs|
    ensures r == -1 <==> forall i :: 0 <= i < |evs| ==> evs[i].utilisateur != uid
    ensures 0 <= r ==> evs[r].utilisateur == uid && forall i :: 0 <= i < r ==> evs[i].utilisateur != uid
  {
    if evs == [] then -1
    else if evs[0].utilisateur == uid then 0
    else
      var k := FindEvaluation(evs[1..], uid);
      if k == -1 then -1 else k + 1
  }

  /** The evaluations after `rateProperty`: the caller's existing evaluation takes the new note, or a new one is pushed. */
  function Upsert(evs: seq<Evaluation>, uid: Id, note: real): (r: seq<Evaluation>)
    ensures |r| == |evs| + (if FindEvaluation(evs, uid) == -1 then 1 else 0) && |r| > 0
  {
    var k := FindEvaluation(evs, uid);
    if k >= 0 then evs[k := evs[k].(note := note)] else evs + [Evaluation(uid, note)]
  }

  /** `evaluations.reduce((acc, cur) => acc + cur.note, 0)`. */
  function SumNotes(evs: seq<Evaluation>): real
  {
    if evs == [] then 0.0 else SumNotes(evs[..|evs| - 1]) + evs[|evs| - 1].note
  }

  /** `total / evaluations.length`, for a non-empty list. */
  function Mean(evs: seq<Evaluation>): real
    requires |evs| > 0
  {
    SumNotes(evs) / (|evs| as real)
  }

  /** The average times the number of evaluations gives back the total. */
  lemma MeanTimesCount(evs: seq<Evaluation>)
    requires |evs| > 0
    ensures Mean(evs) * (|evs| as real) == SumNotes(evs)
  {
    var n := |evs| as real;
    assert n > 0.0;
    assert (SumNotes(evs) / n) * n == SumNotes(evs);
  }

  /** The `userRating` of `getPropertyWithRating`: the caller's note, or `null`. */
  function UserRating(evs: seq<Evaluation>, uid: Id): (r: Option<real>)
    ensures r.None? <==> forall i :: 0 <= i < |evs| ==> evs[i].utilisateur != uid
    ensures r.Some? ==> exists i :: 0 <= i < |evs| && evs[i].utilisateur == uid && evs[i].note == r.value
  {
    var k := FindEvaluation(evs, uid);
    if k >= 0 then Some(evs[k].note) else None
  }

  /** No account has two evaluations. */
  predicate OnePerUser(evs: seq<Evaluation>)
  {
    forall i, j :: 0 <= i < j < |evs| ==> evs[i].utilisateur != evs[j].utilisateur
  }

  /**
   * Rating keeps one evaluation per account; it updates in place when the
   * caller had rated (the length is unchanged) and appends otherwise (the
   * length grows by one).
   */
  lemma UpsertShape(evs: seq<Evaluation>, uid: Id, note: real)
    requires OnePerUser(evs)
    ensures OnePerUser(Upsert(evs, uid, note))
    ensures forall i :: 0 <= i < |evs| && evs[i].utilisateur != uid ==> Upsert(evs, uid, note)[i] == evs[i]
  {
  }

  /** After rating, the caller's rating is the note given and every other account's rating is as before. */
  lemma UpsertRatings(evs: seq<Evaluation>, uid: Id, note: real, other: Id)
    ensures UserRating(Upsert(evs, uid, note), uid) == Some(note)
    ensures other != uid ==> UserRating(Upsert(evs, uid, note), other) == UserRating(evs, other)
  {
    var k := FindEvaluation(evs, uid);
    var u := Upsert(evs, uid, note);
    if k == -1 {
      assert u[|evs|] == Evaluation(uid, note);
      FindSameOwners(evs, u, uid);
      FindSameOwners(evs, u, other);
    } else {
      FindSameOwners(evs, u, uid);
      FindSameOwners(evs, u, other);
    }
  }

  /** A list that agrees with a on owners, with at most one evaluation more at the end, finds uid where a does. */
  lemma FindSameOwners(a: seq<Evaluation>, b: seq<Evaluation>, uid: Id)
    requires |a| <= |b| <= |a| + 1
    requires forall i :: 0 <= i < |a| ==> a[i].utilisateur == b[i].utilisateur
    ensures FindEvaluation(a, uid) >= 0 ==> FindEvaluation(b, uid) == FindEvaluation(a, uid)
    ensures FindEvaluation(a, uid) == -1 && |b| > |a| && b[|a|].utilisateur == uid ==> FindEvaluation(b, uid) == |a|
    ensures FindEvaluation(a, uid) == -1 && |b| == |a| ==> FindEvaluation(b, uid) == -1
  {
  }

  lemma {:induction false} SumNotesUpdate(evs: seq<Evaluation>, k: nat, note: real)
    requires k < |evs|
    ensures SumNotes(evs[k := evs[k].(note := note)]) == SumNotes(evs) - evs[k].note + note
  {
    var u := evs[k := evs[k].(note := note)];
    if k == |evs| - 1 {
      assert u[..|u| - 1] == evs[..|evs| - 1];
    } else {
      assert u[..|u| - 1] == evs[..|evs| - 1][k := evs[k].(note := note)];
      SumNotesUpdate(evs[..|evs| - 1], k, note);
    }
  }

  /** The new total is the old one with the caller's previous note, if any, replaced by the new note. */
  lemma UpsertSum(evs: seq<Evaluation>, uid: Id, note: real)
    ensures SumNotes(Upsert(evs, uid, note))
         == SumNotes(evs) - (if UserRating(evs, uid).Some? then UserRating(evs, uid).value else 0.0) + note
  {
    var k := FindEvaluation(evs, uid);
    if k >= 0 {
      SumNotesUpdate(evs, k, note);
    } else {
      assert (evs + [Evaluation(uid, note)])[..|evs|] == evs;
    }
  }

  /** The average after rating lies between the smallest and the largest note. */
  lemma MeanBounds(evs: seq<Evaluation>, lo: real, hi: real)
    requires |evs| > 0
    requires forall i :: 0 <= i < |evs| ==> lo <= evs[i].note <= hi
    ensures lo <= Mean(evs) <= hi
  {
    SumBounds(evs, lo, hi);
  }

  lemma {:induction false} SumBounds(evs: seq<Evaluation>, lo: real, hi: real)
    requires forall i :: 0 <= i < |evs| ==> lo <= evs[i].note <= hi
    ensures lo * (|evs| as real) <= SumNotes(evs) <= hi * (|evs| as real)
  {
    if evs != [] {
      SumBounds(evs[..|evs| - 1], lo, hi);
    }
  }

  /** A first rating makes the average that note. */
  lemma FirstRating(uid: Id, note: real)
    ensures Mean(Upsert([], uid, note)) == note
  {
    var e := [Evaluation(uid, note)];
    assert Upsert([], uid, note) == e;
    assert e[..0] == [];
    assert SumNotes(e) == note;
  }
}
