/**
 * Status derivation (sync-laws.mjs:123-128) and the in-force view
 * (sync-laws.mjs:133). Derivation is a per-record rule with the precedence
 * repeal > amendment > enrichment status > "in_force".
 */
module Lifecycle {
  import opened Wrappers
  import opened Instruments

  /** The status loop's body for one record, with the run date passed in. */
  function Derive(r: Instrument, runDate: string): Instrument {
    if Truthy(r.repealedBy) then r.(effectiveTo := Some(runDate), status := Some(Repealed))
    else if |r.asAmendedBy| > 0 then r.(status := Some(if r.status == Some(Repealed) then Repealed else Amended))
    else r.(status := if Truthy(r.status) then r.status else Some(InForce))
  }

  /** The precedence of the rule: a repealer forces "repealed" and ends the record's effect on
      the run date; otherwise an amender gives "amended" unless the record was already
      "repealed"; otherwise a truthy status is kept and a falsy one becomes "in_force".
      Only `status` and `effectiveTo` change, and `effectiveTo` only on repeal. */
  lemma DerivePrecedence(r: Instrument, runDate: string)
    ensures Truthy(r.repealedBy) ==>
      Derive(r, runDate).status == Some(Repealed) && Derive(r, runDate).effectiveTo == Some(runDate)
    ensures !Truthy(r.repealedBy) && r.asAmendedBy != [] ==>
      Derive(r, runDate).status == if r.status == Some(Repealed) then Some(Repealed) else Some(Amended)
    ensures !Truthy(r.repealedBy) && r.asAmendedBy == [] && Truthy(r.status) ==>
      Derive(r, runDate).status == r.status
    ensures !Truthy(r.repealedBy) && r.asAmendedBy == [] && !Truthy(r.status) ==>
      Derive(r, runDate).status == Some(InForce)
    ensures !Truthy(r.repealedBy) ==> Derive(r, runDate).effectiveTo == r.effectiveTo
    ensures Derive(r, runDate).(status := r.status, effectiveTo := r.effectiveTo) == r
  {
  }

  /** Every derived status is truthy, and one of the four known ones when the record's
      status was known or falsy before. */
  lemma DeriveStatus(r: Instrument, runDate: string)
    ensures Truthy(Derive(r, runDate).status)
    ensures (!Truthy(r.status) || IsStatus(r.status.value)) ==> IsStatus(Derive(r, runDate).status.value)
  {
  }

  /** Deriving twice gives what deriving once gives. */
  lemma DeriveIdempotent(r: Instrument, runDate: string)
    ensures Derive(Derive(r, runDate), runDate) == Derive(r, runDate)
  {
  }

  /** "repealed" does not imply a repealer: a status of "repealed" set by enrichment survives
      derivation without `repealedBy` and without `effectiveTo`. */
  lemma RepealedWithoutRepealer(runDate: string)
    ensures var r := NewInstrument("a", None, None).(status := Some(Repealed));
      Derive(r, runDate).status == Some(Repealed) && Derive(r, runDate).repealedBy.None?
      && Derive(r, runDate).effectiveTo.None?
  {
  }

  /** The status loop over the whole list. */
  function DeriveAll(s: seq<Instrument>, runDate: string): (r: seq<Instrument>)
    ensures |r| == |s|
    ensures forall i :: 0 <= i < |s| ==> r[i] == Derive(s[i], runDate)
  {
    seq(|s|, i requires 0 <= i < |s| => Derive(s[i], runDate))
  }

  /** `all.filter(x => x.status != "repealed")`: a missing status is kept. */
  function InForceView(s: seq<Instrument>): (r: seq<Instrument>)
    ensures forall x :: x in r <==> x in s && x.status != Some(Repealed)
    ensures |r| <= |s|
    ensures (forall x :: x in s ==> x.status != Some(Repealed)) ==> r == s
    decreases |s|
  {
    if |s| == 0 then []
    else
      var rest := InForceView(s[1..]);
      if s[0].status != Some(Repealed) then
        assert s == [s[0]] + s[1..];
        [s[0]] + rest
      else rest
  }

  /** The view keeps the order of the snapshot: filtering a concatenation filters each part. */
  lemma {:induction false} InForceViewAppend(a: seq<Instrument>, b: seq<Instrument>)
    ensures InForceView(a + b) == InForceView(a) + InForceView(b)
    decreases |a|
  {
    if |a| > 0 {
      assert (a + b)[0] == a[0] && (a + b)[1..] == a[1..] + b;
      InForceViewAppend(a[1..], b);
    } else {
      assert a + b == b;
    }
  }
}
