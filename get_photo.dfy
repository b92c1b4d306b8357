/**
 * Features/Photo/GetPhoto.cs: the photo of a resume, looked up by the resume's
 * id alone, with no ownership check.
 */
module GetPhoto {
  import opened Wrappers
  import opened Results
  import opened Contracts
  import opened Data

  datatype Query = Query(resumeId: int)

  const NotFound: string := "Резюме не найден."

  /**
   * `GetPhotos.Handler.Handle`: a failure when no resume has the id; otherwise
   * a success whose value is the resume's photo, or null (answered as "no
   * content", not as an error) when it has none.
   */
  function Handle(t: Tables, q: Query): (r: Outcome<PhotoResumeResponse>)
    requires t.Valid()
    ensures r.Fail? <==> q.resumeId !in t.ResumeIds()
    ensures r.Fail? ==> r == FailWith(NotFound)
    ensures !r.Thrown?
    ensures r.Ok? && r.value.Some? ==> q.resumeId in t.photos && r.value.value.data == t.photos[q.resumeId].data
                                       && r.value.value.resumeId == q.resumeId
    ensures r.Ok? && r.value.None? ==> q.resumeId !in t.photos
  {
    match t.ResumeById(q.resumeId)
    case None => FailWith(NotFound)
    case Some(_) =>
      if q.resumeId in t.photos then Ok(Some(PhotoToResponse(t.photos[q.resumeId]))) else Ok(None)
  }
}
