/**
 * Features/Users/GetAllUser.cs: every user, read without tracking, projected
 * to id, e-mail, blocked flag and role.  The endpoint is restricted to
 * administrators by the routing policy, which is outside the model.
 */
module GetAllUser {
  import opened Wrappers
  import opened Results
  import opened Contracts
  import opened Data
  import opened Linq

  /**
   * `Handler.Handle`: never fails; one entry per stored user, in table order,
   * carrying that user's id, e-mail, flag and role (the response type has no
   * place for the password hash).
   */
  function Handle(t: Tables): (r: Outcome<seq<UserResponse>>)
    ensures r.Ok? && r.value.Some?
    ensures |r.value.value| == |t.users|
    ensures forall i :: 0 <= i < |t.users| ==>
              var e := r.value.value[i];
              e.id == t.users[i].id && e.email == t.users[i].email
              && e.isBlocked == t.users[i].isBlocked && e.role == t.users[i].role
  {
    Ok(Some(Select(t.users, UserToResponse)))
  }

  /** Every user appears exactly once: in a valid store no two entries share an id. */
  lemma {:induction false} EachUserOnce(t: Tables)
    requires t.Valid()
    ensures var rs := Handle(t).value.value;
            forall i, j :: 0 <= i < j < |rs| ==> rs[i].id != rs[j].id
  {
    var rs := Handle(t).value.value;
    forall i, j | 0 <= i < j < |rs| ensures rs[i].id != rs[j].id {
      assert rs[i].id == t.users[i].id && rs[j].id == t.users[j].id;
      assert t.UniqueUserIds();
    }
  }
}
