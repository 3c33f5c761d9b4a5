/** Which of the computed changes may go out (plan/policy.go). */
module Policies {
  import opened Endpoints

  datatype Policy = Sync | UpsertOnly | CreateOnly

  function Restrict(p: Policy, c: Changes): Changes {
    match p
    case Sync => c
    case UpsertOnly => Changes(c.create, c.updateOld, c.updateNew, [])
    case CreateOnly => Changes(c.create, [], [], [])
  }

  predicate AllowsDelete(ps: seq<Policy>) {
    forall p :: p in ps ==> p.Sync?
  }

  predicate AllowsUpdate(ps: seq<Policy>) {
    forall p :: p in ps ==> !p.CreateOnly?
  }

  /** A chain of policies lets through what each of them lets through. */
  method ApplyAll(ps: seq<Policy>, c: Changes) returns (r: Changes)
    ensures r.create == c.create
    ensures r.delete == if AllowsDelete(ps) then c.delete else []
    ensures r.updateOld == if AllowsUpdate(ps) then c.updateOld else []
    ensures r.updateNew == if AllowsUpdate(ps) then c.updateNew else []
  {
    r := c;
    for i := 0 to |ps|
      invariant r.create == c.create
      invariant r.delete == if AllowsDelete(ps[..i]) then c.delete else []
      invariant r.updateOld == if AllowsUpdate(ps[..i]) then c.updateOld else []
      invariant r.updateNew == if AllowsUpdate(ps[..i]) then c.updateNew else []
    {
      assert ps[..i + 1] == ps[..i] + [ps[i]];
      r := Restrict(ps[i], r);
    }
    assert ps[..|ps|] == ps;
  }
}
