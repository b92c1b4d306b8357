/**
 * Features/Resumes/DeleteResume.cs (the src copy): the owner deletes a
 * resume.  The validator has no rules.  The photo row keyed by the resume id
 * goes with it, as the required relationship cascades.
 */
module DeleteResume {
  import opened Wrappers
  import opened Results
  import opened Entities
  import opened Contracts
  import opened Data
  import opened Linq

  /** The resume id and the caller's user id. */
  datatype Command = Command(id: int, userId: int)

  const NotFound: string := "Резюме не найдено."

  /**
   * The handler on a store value: a failure that changes nothing unless the
   * caller owns a resume with that id; otherwise exactly that resume and its
   * photo are removed, every other resume stays in order, and the success
   * carries no value.
   */
  function Apply(t: Tables, cmd: Command): (r: (Outcome<ResumeResponse>, Tables))
    requires t.Valid()
    ensures r.1.Valid()
    ensures r.0 == Ok(None) || r.0 == FailWith(NotFound)
    ensures r.0.Ok? <==> exists k :: 0 <= k < |t.resumes| && t.resumes[k].id == cmd.id && t.resumes[k].userId == cmd.userId
    ensures r.0.Fail? ==> r.1 == t
    ensures r.0.Ok? ==>
              && r.1.resumes == Where(t.resumes, (x: Resume) => x.id != cmd.id)
              && |r.1.resumes| == |t.resumes| - 1
              && r.1 == t.(resumes := r.1.resumes, photos := t.photos - {cmd.id})
  {
    match t.OwnedResume(cmd.id, cmd.userId)
    case None => (FailWith(NotFound), t)
    case Some(i) =>
      ResumeIdIsKey(t, i);
      WhereDropsOne(t.resumes, (x: Resume) => x.id != cmd.id, i);
      RemoveResumeKeepsValid(t, i);
      (Ok(None), Without(t, i))
  }

  /** The store with the resume at `i` and its photo removed. */
  function Without(t: Tables, i: nat): Tables
    requires i < |t.resumes|
  {
    t.(resumes := t.resumes[..i] + t.resumes[i + 1..], photos := t.photos - {t.resumes[i].id})
  }

  /** The resumes left once the one at `i` is removed are the others, in order. */
  lemma RemainingResumes(t: Tables, i: nat)
    requires i < |t.resumes|
    ensures var rs := Without(t, i).resumes;
            |rs| == |t.resumes| - 1 && forall j :: 0 <= j < |rs| ==> rs[j] == t.resumes[if j < i then j else j + 1]
  {
  }

  /** The resume rows left behind keep distinct ids, bounds, owners and the counter. */
  lemma RemainingResumesValid(t: Tables, i: nat)
    requires t.Valid() && i < |t.resumes|
    ensures var t2 := Without(t, i);
            t2.UniqueResumeIds() && t2.RowsWithinBounds() && t2.OwnersExist() && t2.IdsBelowNext()
  {
    var rs := Without(t, i).resumes;
    RemainingResumes(t, i);
    forall a, b | 0 <= a < b < |rs| ensures rs[a].id != rs[b].id {
      var a', b' := if a < i then a else a + 1, if b < i then b else b + 1;
      assert rs[a] == t.resumes[a'] && rs[b] == t.resumes[b'] && a' < b';
      assert t.UniqueResumeIds();
    }
  }

  /** Every photo left behind still belongs to a resume left behind. */
  lemma RemainingPhotosKeyed(t: Tables, i: nat)
    requires t.PhotosKeyed() && i < |t.resumes|
    ensures Without(t, i).PhotosKeyed()
  {
    var t2 := Without(t, i);
    var rs := t2.resumes;
    RemainingResumes(t, i);
    forall k | k in t2.photos ensures k in t2.ResumeIds() {
      var j :| 0 <= j < |t.resumes| && t.resumes[j].id == k;
      assert j != i;
      assert rs[if j < i then j else j - 1] == t.resumes[j];
    }
  }

  /** Removing a resume row together with its photo keeps the store valid. */
  lemma RemoveResumeKeepsValid(t: Tables, i: nat)
    requires t.Valid() && i < |t.resumes|
    ensures Without(t, i).Valid()
  {
    RemainingResumesValid(t, i);
    RemainingPhotosKeyed(t, i);
  }

  /** When the lookup finds the caller's row at `i`, the handler removes that row and the photo keyed by its id. */
  lemma RemovesOwned(t: Tables, cmd: Command, i: nat)
    requires t.Valid() && t.OwnedResume(cmd.id, cmd.userId) == Some(i)
    ensures Apply(t, cmd) == (Ok(None), t.(resumes := t.resumes[..i] + t.resumes[i + 1..], photos := t.photos - {cmd.id}))
  {
  }

  /** `Handler.Handle`: find the caller's row, remove it, save. */
  method Handle(db: AppDbContext, cmd: Command) returns (r: Outcome<ResumeResponse>)
    requires db.Valid()
    modifies db
    ensures db.Valid()
    ensures (r, db.State()) == Apply(old(db.State()), cmd)
  {
    ghost var before := db.State();
    var found := db.State().OwnedResume(cmd.id, cmd.userId);
    if found.None? {
      return FailWith(NotFound);
    }
    var i := found.value;
    db.resumes := db.resumes[..i] + db.resumes[i + 1..];
    db.photos := db.photos - {cmd.id};
    RemovesOwned(before, cmd, i);
    StateValid(db, Apply(before, cmd).1);
    r := Ok(None);
  }
}
