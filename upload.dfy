/**
 * The `POST /upload_estudiantes` endpoint: validate the `file` part, save it,
 * parse it, build the roster, clear the remote `Estudiantes` collection and
 * patch the roster into it, then answer with a status, a `success` flag and,
 * on success, the roster.
 *
 * What the handler cannot see is passed in: the name `secure_filename`
 * produced, the rows the spreadsheet reader yielded (None when saving,
 * reading or a column lookup raised), and the remote store's replies.
 */
module Upload {
  import opened Wrappers
  import opened FileNames
  import opened Students
  import opened RemoteStore

  /** The uploaded part of the multipart request. */
  datatype FilePart = FilePart(filename: string)

  /** `request.files`, by form field name. */
  type Files = map<string, FilePart>

  /** HTTP status, the `success` field and the `data` field of the answer. */
  datatype Response = Response(status: int, success: bool, data: Option<Roster>)

  const BadRequest := Response(400, false, None)
  const ProcessingError := Response(500, false, None)

  /** A request made to the remote `Estudiantes` collection. */
  datatype Call = DeleteEstudiantes | PatchEstudiantes(data: Roster)

  /** How the body of the `try` block ended. */
  datatype Outcome = Returned(resp: Response) | Raised

  /** The three checks before the `try` block all pass. */
  predicate Validated(files: Files)
  {
    "file" in files && files["file"].filename != "" && AllowedFile(files["file"].filename)
  }

  /** The file was accepted, a reader ran on it and produced rows. */
  predicate Parsed(files: Files, stored: string, parsed: Option<seq<Row>>)
  {
    Validated(files) && Dispatch(stored).Some? && parsed.Some?
  }

  /** Clearing the remote collection and patching the new roster into it;
      a transport error escapes as an exception. */
  method ReplaceRoster(estudiantes: Roster, deleteReply: Reply, patchReply: Reply, store: Roster)
    returns (outcome: Outcome, store': Roster, ghost calls: seq<Call>)
    // The patch is sent only after the delete answered 200 or 204.
    ensures calls == if Succeeded(deleteReply)
                     then [DeleteEstudiantes, PatchEstudiantes(estudiantes)]
                     else [DeleteEstudiantes]
    // A failed delete changes nothing and its status is forwarded.
    ensures !Succeeded(deleteReply) ==> store' == store
    ensures deleteReply.TransportError? ==> outcome == Raised
    ensures deleteReply.Answered? && !Succeeded(deleteReply) ==>
              outcome == Returned(Response(deleteReply.status, false, None))
    // After a successful delete nothing is restored, whatever the patch does.
    ensures Succeeded(deleteReply) ==> store' == AfterPatch(map[], estudiantes, patchReply)
    ensures Succeeded(deleteReply) && patchReply.TransportError? ==> outcome == Raised
    ensures Succeeded(deleteReply) && patchReply.Answered? && patchReply.status != 200 ==>
              outcome == Returned(Response(patchReply.status, false, None))
    // Only a patch answered 200 is a success, and it reports the roster sent.
    ensures outcome.Returned? && outcome.resp.success <==> Succeeded(deleteReply) && patchReply == Answered(200)
    ensures outcome.Returned? && outcome.resp.success ==>
              outcome.resp == Response(200, true, Some(estudiantes)) && store' == estudiantes
  {
    outcome, store', calls := Raised, store, [DeleteEstudiantes];
    if deleteReply.TransportError? {
      return;
    }
    store' := AfterDelete(store', deleteReply);
    if deleteReply.status == 200 || deleteReply.status == 204 {
      calls := calls + [PatchEstudiantes(estudiantes)];
      if patchReply.TransportError? {
        return;
      }
      store' := AfterPatch(store', estudiantes, patchReply);
      if patchReply.status == 200 {
        outcome := Returned(Response(200, true, Some(estudiantes)));
      } else {
        outcome := Returned(Response(patchReply.status, false, None));
      }
    } else {
      outcome := Returned(Response(deleteReply.status, false, None));
    }
  }

  method UploadEstudiantes(files: Files, stored: string, parsed: Option<seq<Row>>,
                       deleteReply: Reply, patchReply: Reply, store: Roster)
    returns (resp: Response, store': Roster,
             ghost calls: seq<Call>, ghost tempSaved: bool, ghost tempRemoved: bool)
    // Validation, in this order; each failure is a 400 with nothing saved
    // and no remote request.
    ensures "file" !in files ==> resp == BadRequest
    ensures "file" in files && files["file"].filename == "" ==> resp == BadRequest
    ensures "file" in files && files["file"].filename != "" && !AllowedFile(files["file"].filename) ==>
              resp == BadRequest
    ensures !Validated(files) ==> calls == [] && store' == store
    // Once validation passes the file is saved, and it is removed on every exit.
    ensures tempSaved == Validated(files) && tempRemoved == tempSaved
    // No reader for the stored name, or a parse that raised: 500, no remote request.
    ensures Validated(files) && !Parsed(files, stored, parsed) ==>
              resp == ProcessingError && calls == [] && store' == store
    // When secure_filename keeps the name, an extension that allowed_file
    // accepts but that is not written in lower case reaches no reader.
    ensures Validated(files) && stored == files["file"].filename
            && AfterLastDot(stored) != Lower(AfterLastDot(stored)) ==>
              resp == ProcessingError && calls == [] && store' == store
    // The collection is always cleared first; the patch follows only a 200 or 204.
    ensures Parsed(files, stored, parsed) ==>
              calls == if Succeeded(deleteReply)
                   then [DeleteEstudiantes, PatchEstudiantes(RosterOf(parsed.value))]
                   else [DeleteEstudiantes]
    ensures Parsed(files, stored, parsed) && deleteReply.TransportError? ==>
              resp == ProcessingError && store' == store
    ensures Parsed(files, stored, parsed) && deleteReply.Answered? && !Succeeded(deleteReply) ==>
              resp == Response(deleteReply.status, false, None) && store' == store
    // A failed patch is not undone: the collection stays cleared.
    ensures Parsed(files, stored, parsed) && Succeeded(deleteReply) && patchReply.TransportError? ==>
              resp == ProcessingError && store' == map[]
    ensures Parsed(files, stored, parsed) && Succeeded(deleteReply)
              && patchReply.Answered? && patchReply.status != 200 ==>
              resp == Response(patchReply.status, false, None)
              && store' == AfterPatch(map[], RosterOf(parsed.value), patchReply)
    // Success is exactly a patch answered with 200, and returns the roster.
    ensures resp.success <==> Parsed(files, stored, parsed) && Succeeded(deleteReply) && patchReply == Answered(200)
    ensures resp.success ==>
              resp == Response(200, true, Some(RosterOf(parsed.value))) && store' == RosterOf(parsed.value)
    ensures resp.success <==> resp.status == 200
  {
    store', calls, tempSaved, tempRemoved := store, [], false, false;
    if "file" !in files {
      return BadRequest, store', calls, tempSaved, tempRemoved;
    }
    var file := files["file"];
    if file.filename == "" {
      return BadRequest, store', calls, tempSaved, tempRemoved;
    }
    if !AllowedFile(file.filename) {
      return BadRequest, store', calls, tempSaved, tempRemoved;
    }

    // try:
    var outcome := Raised;  // stays Raised on every path where an exception escapes
    tempSaved := true;
    var reader := Dispatch(stored);
    if stored == file.filename {
      UncasedExtensionHasNoReader(stored);
    }
    if reader.Some? && parsed.Some? {  // with no reader, `df` is unbound
      var estudiantes := BuildRoster(parsed.value);
      outcome, store', calls := ReplaceRoster(estudiantes, deleteReply, patchReply, store);
    }
    // except Exception:
    resp := if outcome.Raised? then ProcessingError else outcome.resp;
    // finally:
    tempRemoved := true;
  }
}
