/**
 * The hosted repository the script saves to, as seen through its contents
 * API: a map from path to stored file (base64 content and a version
 * identifier, the "sha"), reached by GET and PUT requests that can fail.
 *
 * Failures are scheduled up front: `faults` maps the number of a request
 * (its position in the request log) to what goes wrong with it, so every
 * path through the script's error handling can be reached. A PUT that
 * reaches the server is accepted exactly when it names the current sha of
 * an existing file, or names none for a file that does not exist yet.
 */
module Remote {
  import opened Text

  type Sha = nat

  /** A stored file: its content as the API returns it (base64 text) and
      its current version. */
  datatype StoredFile = StoredFile(content: string, sha: Sha)

  /** A request as the store received it. */
  datatype Request =
    | Get(path: string)
    | Put(path: string, content: string, sha: Option<Sha>, message: string)

  /** What can go wrong with one request: no answer at all (the browser's
      `fetch` rejects), or an error status with a message in its body. */
  datatype Fault = Offline | Refused(status: nat, message: string)

  /** The outcome of a request. `Unreachable` is a rejected `fetch`; an
      `HttpError` is a response whose `ok` is false. */
  datatype Response<T> = Ok(value: T) | Unreachable | HttpError(status: nat, message: string)

  const NotFound: nat := 404
  const Conflict: nat := 409
  const Unprocessable: nat := 422

  function FaultResponse<T>(f: Fault): (r: Response<T>)
    ensures !r.Ok?
  {
    match f
    case Offline => Unreachable
    case Refused(status, message) => HttpError(status, message)
  }

  /** The answer to a GET of `path`. */
  function GetResponse(files: map<string, StoredFile>, fault: Option<Fault>, path: string): (r: Response<StoredFile>)
    ensures r.Ok? <==> fault.None? && path in files
    ensures r.Ok? ==> r.value == files[path]
  {
    match fault
    case Some(f) => FaultResponse(f)
    case None => if path in files then Ok(files[path]) else HttpError(NotFound, "Not Found")
  }

  /** Whether a PUT naming `sha` may write `path`. */
  predicate Accepts(files: map<string, StoredFile>, path: string, sha: Option<Sha>)
  {
    if path in files then sha == Some(files[path].sha) else sha.None?
  }

  /** The answer to a PUT; on success, the new sha. */
  function PutResponse(files: map<string, StoredFile>, fault: Option<Fault>, path: string, sha: Option<Sha>, newSha: Sha): (r: Response<Sha>)
    ensures r.Ok? <==> fault.None? && Accepts(files, path, sha)
    ensures r.Ok? ==> r.value == newSha
  {
    match fault
    case Some(f) => FaultResponse(f)
    case None =>
      if Accepts(files, path, sha) then Ok(newSha)
      else if path in files && sha.None? then HttpError(Unprocessable, "sha wasn't supplied")
      else HttpError(Conflict, "sha does not match")
  }

  /** The files after a PUT with the given answer: written only when it
      was accepted. */
  function AfterPut(files: map<string, StoredFile>, path: string, content: string, r: Response<Sha>): (files': map<string, StoredFile>)
    ensures r.Ok? ==> files' == files[path := StoredFile(content, r.value)]
    ensures !r.Ok? ==> files' == files
  {
    if r.Ok? then files[path := StoredFile(content, r.value)] else files
  }

  /** The fault scheduled for request number `n`, if any. */
  function FaultAt(faults: map<nat, Fault>, n: nat): (f: Option<Fault>)
    ensures f.Some? <==> n in faults
  {
    if n in faults then Some(faults[n]) else None
  }

  class Store {
    var files: map<string, StoredFile>
    var log: seq<Request>
    var faults: map<nat, Fault>
    var nextSha: Sha

    /** Every stored sha was handed out before `nextSha`, so a write always
        gives its file a version no file has had. */
    ghost predicate Valid()
      reads this
    {
      forall p :: p in files ==> files[p].sha < nextSha
    }

    constructor(files: map<string, StoredFile>, faults: map<nat, Fault>, nextSha: Sha)
      requires forall p :: p in files ==> files[p].sha < nextSha
      ensures Valid()
      ensures this.files == files && this.faults == faults && this.nextSha == nextSha && log == []
    {
      this.files := files;
      this.faults := faults;
      this.nextSha := nextSha;
      this.log := [];
    }

    /** The fault scheduled for the next request, if any. */
    function NextFault(): Option<Fault>
      reads this
    {
      FaultAt(faults, |log|)
    }

    method Fetch(path: string) returns (r: Response<StoredFile>)
      modifies this
      ensures r == GetResponse(old(files), old(NextFault()), path)
      ensures log == old(log) + [Get(path)]
      ensures files == old(files) && faults == old(faults) && nextSha == old(nextSha)
    {
      r := GetResponse(files, NextFault(), path);
      log := log + [Get(path)];
    }

    method Write(path: string, content: string, sha: Option<Sha>, message: string) returns (r: Response<Sha>)
      requires Valid()
      modifies this
      ensures Valid()
      ensures r == PutResponse(old(files), old(NextFault()), path, sha, old(nextSha))
      ensures files == AfterPut(old(files), path, content, r)
      ensures log == old(log) + [Put(path, content, sha, message)]
      ensures faults == old(faults)
      ensures nextSha == if r.Ok? then old(nextSha) + 1 else old(nextSha)
    {
      r := PutResponse(files, NextFault(), path, sha, nextSha);
      files := AfterPut(files, path, content, r);
      if r.Ok? {
        nextSha := nextSha + 1;
      }
      log := log + [Put(path, content, sha, message)];
    }
  }

  /** A PUT gets no answer at all exactly when its `fetch` rejects. */
  lemma PutUnanswered(files: map<string, StoredFile>, fault: Option<Fault>, path: string, sha: Option<Sha>, newSha: Sha)
    ensures PutResponse(files, fault, path, sha, newSha).Unreachable? <==> fault == Some(Offline)
  {
    if fault.Some? {
      assert PutResponse(files, fault, path, sha, newSha) == FaultResponse(fault.value);
    }
  }

  /** A successful write installs a sha no file in the store had. */
  lemma PutShaIsNew(files: map<string, StoredFile>, path: string, sha: Option<Sha>, newSha: Sha)
    requires forall p :: p in files ==> files[p].sha < newSha
    requires PutResponse(files, None, path, sha, newSha).Ok?
    ensures forall p :: p in files ==> files[p].sha != PutResponse(files, None, path, sha, newSha).value
  {
  }

  /** Without a fault, a write naming the sha a GET of the same path just
      returned (or none, when the GET found nothing) is accepted: the probe
      and write together always create or replace the file. */
  lemma ProbeThenPutAccepted(files: map<string, StoredFile>, path: string)
    ensures var probe := GetResponse(files, None, path);
      Accepts(files, path, if probe.Ok? then Some(probe.value.sha) else None)
  {
  }

  /** A write that names no sha cannot replace an existing file: when the
      probe fails for an existing file, the write is refused. */
  lemma BlindPutRefused(files: map<string, StoredFile>, path: string, newSha: Sha)
    requires path in files
    ensures PutResponse(files, None, path, None, newSha) == HttpError(Unprocessable, "sha wasn't supplied")
  {
  }
}
