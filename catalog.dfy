/**
 * The page's state and the two ways an entry leaves the form (script.js):
 * `saveToGitHub`, which writes the entry's Markdown file and appends the
 * entry to the hosted index through `githubCreateFile` and the contents
 * API, then mirrors the entry into the local catalog; and `downloadEntry`,
 * which produces the same two files for the user to place by hand.
 *
 * The settings `getSettings` reads from local storage are a parameter; the
 * toasts, the button state and the form and gallery redraws are not
 * modelled.
 */
module Catalog {
  import opened Text
  import opened Entries
  import opened Filter
  import opened Markdown
  import opened Base64
  import opened IndexJson
  import opened Remote

  /** The index file every entry is listed in. */
  const IndexPath: string := "entries.json"

  /** Where an entry's Markdown file is stored. */
  function EntryPath(slug: string): (p: string)
    ensures p != IndexPath
    ensures |p| == |slug| + 11 && p[..8] == "entries/" && p[|p| - 3..] == ".md"
    ensures p[8..|p| - 3] == slug
  {
    var p := "entries/" + slug + ".md";
    assert p[7] == '/' && IndexPath[7] == '.';
    p
  }

  /** Why a save stopped: an error the script throws with its message, a
      request the browser could not send at all, or an index whose content
      does not decode (from base64 and UTF-8) or parse. */
  datatype Error = Thrown(message: string) | Disconnected | Unreadable

  datatype Result<T> = Success(value: T) | Failure(error: Error)

  /** What `saveToGitHub` ends with: the form was refused, the connection is
      not set up, the entry was saved, or a step threw (and the script only
      reports it). */
  datatype SaveResult = Invalid | NotConfigured | Saved | Failed(error: Error)

  /** The two files `downloadEntry` hands to the browser. */
  datatype Download = Download(markdownName: string, markdown: string, indexName: string, index: string)

  // ------------------------------------------------------- decimal numbers

  function DigitChar(d: nat): (c: char)
    requires d < 10
    ensures '0' <= c <= '9'
  {
    ('0' as int + d) as char
  }

  /** A status code as string concatenation writes it. */
  function DecimalText(n: nat): (s: string)
    ensures s != []
    ensures forall i :: 0 <= i < |s| ==> '0' <= s[i] <= '9'
  {
    if n < 10 then [DigitChar(n)] else DecimalText(n / 10) + [DigitChar(n % 10)]
  }

  /** The number a string of decimal digits stands for. */
  function DecimalValue(s: string): nat
    requires forall i :: 0 <= i < |s| ==> '0' <= s[i] <= '9'
  {
    if s == [] then 0 else DecimalValue(s[..|s| - 1]) * 10 + (s[|s| - 1] as int - '0' as int)
  }

  /** The text written for a status reads back as that status. */
  lemma {:induction false} DecimalTextValue(n: nat)
    ensures DecimalValue(DecimalText(n)) == n
  {
    if n >= 10 {
      var s := DecimalText(n);
      assert s[..|s| - 1] == DecimalText(n / 10);
      DecimalTextValue(n / 10);
    }
  }

  // ------------------------------------------------------ githubCreateFile

  /** The sha the existence probe yields: the file's, when the GET
      succeeded; none when it failed in any way. */
  function ProbeSha(r: Response<StoredFile>): (sha: Option<Sha>)
    ensures sha.Some? <==> r.Ok?
    ensures r.Ok? ==> sha == Some(r.value.sha)
  {
    match r
    case Ok(f) => Some(f.sha)
    case _ => None
  }

  /** The message `githubCreateFile` throws for a refused PUT: the message
      of the error body, or a fallback naming the path when it has none. */
  function CreateErrorMessage(path: string, message: string): (m: string)
    ensures m != []
    ensures message != [] ==> m == message
    ensures message == [] ==> m == "Failed to create " + path
  {
    if message != [] then message else "Failed to create " + path
  }

  /** How `githubCreateFile` ends, given the answer to its PUT. */
  function CreateOutcome(path: string, put: Response<Sha>): (r: Result<Sha>)
    ensures r.Success? <==> put.Ok?
    ensures put.Unreachable? <==> r == Failure(Disconnected)
    ensures put.HttpError? ==> r == Failure(Thrown(CreateErrorMessage(path, put.message)))
  {
    match put
    case Ok(sha) => Success(sha)
    case Unreachable => Failure(Disconnected)
    case HttpError(_, message) => Failure(Thrown(CreateErrorMessage(path, message)))
  }

  /** `githubCreateFile(settings, headers, path, content, message)`: probe
      the path for its current sha, then PUT the base64 content, naming
      that sha exactly when the probe succeeded; a refused PUT throws. */
  method GithubCreateFile(store: Store, path: string, content: string, message: string) returns (r: Result<Sha>)
    requires store.Valid()
    modifies store
    ensures store.Valid()
    ensures
      var probe := GetResponse(old(store.files), old(store.NextFault()), path);
      var put := PutResponse(old(store.files), FaultAt(old(store.faults), |old(store.log)| + 1), path, ProbeSha(probe), old(store.nextSha));
      && store.log == old(store.log) + [Get(path), Put(path, ToBase64(content), ProbeSha(probe), message)]
      && r == CreateOutcome(path, put)
      && store.files == AfterPut(old(store.files), path, ToBase64(content), put)
    ensures store.faults == old(store.faults)
  {
    var existing := store.Fetch(path);
    var sha := ProbeSha(existing);
    var response := store.Write(path, ToBase64(content), sha, message);
    r := CreateOutcome(path, response);
  }

  /** When neither request fails on the way, `githubCreateFile` succeeds
      whether or not the file existed: it creates or replaces it. */
  lemma CreateSucceedsUnlessFaulted(files: map<string, StoredFile>, path: string, newSha: Sha)
    ensures
      var probe := GetResponse(files, None, path);
      CreateOutcome(path, PutResponse(files, None, path, ProbeSha(probe), newSha)) == Success(newSha)
  {
    ProbeThenPutAccepted(files, path);
  }

  /** When the probe of an existing file fails, the PUT names no sha and is
      refused, so `githubCreateFile` throws the server's message. */
  lemma CreateFailsAfterFailedProbe(files: map<string, StoredFile>, path: string, fault: Fault, newSha: Sha)
    requires path in files
    ensures
      var probe := GetResponse(files, Some(fault), path);
      CreateOutcome(path, PutResponse(files, None, path, ProbeSha(probe), newSha)) == Failure(Thrown("sha wasn't supplied"))
  {
    BlindPutRefused(files, path, newSha);
  }

  // ------------------------------------------------------------ the index

  /** The entries a stored index file holds, if it decodes and parses. */
  function StoredIndex(content: string): Option<seq<Entry>>
  {
    match FromBase64(content)
    case None => None
    case Some(text) => ParseIndex(text)
  }

  /** The base64 content the script uploads for an index of `xs`. */
  function IndexContent(xs: seq<Entry>): string
  {
    ToBase64(IndexText(xs))
  }

  /** An uploaded index reads back as the entries it was written from. */
  lemma StoredIndexContent(xs: seq<Entry>)
    ensures StoredIndex(IndexContent(xs)) == Some(xs)
  {
    FromBase64ToBase64(IndexText(xs));
    ParseIndexText(xs);
  }

  /** The message thrown when the index cannot be fetched. */
  function ReadIndexMessage(status: nat): string
  {
    "Could not read entries.json from repo (HTTP " + DecimalText(status) + ")"
  }

  /** Reading the fetched index: its entries and its sha, or why not. */
  function ReadIndex(r: Response<StoredFile>): (result: Result<(seq<Entry>, Sha)>)
    ensures result.Success? <==> r.Ok? && StoredIndex(r.value.content).Some?
    ensures result.Success? ==> result.value == (StoredIndex(r.value.content).value, r.value.sha)
    ensures r.HttpError? ==> result == Failure(Thrown(ReadIndexMessage(r.status)))
  {
    match r
    case Unreachable => Failure(Disconnected)
    case HttpError(status, _) => Failure(Thrown(ReadIndexMessage(status)))
    case Ok(f) =>
      match StoredIndex(f.content)
      case None => Failure(Unreadable)
      case Some(xs) => Success((xs, f.sha))
  }

  // -------------------------------------------------------- the save steps

  /** The commit message of the entry's Markdown file. */
  function EntryMessage(title: string): (m: string)
    ensures |m| == |title| + 11 && m[..11] == "Add entry: " && m[11..] == title
  {
    "Add entry: " + title
  }

  /** The commit message of the index update. */
  function IndexMessage(title: string): (m: string)
    ensures |m| == |title| + 18 && m[..18] == "Update index: add " && m[18..] == title
  {
    "Update index: add " + title
  }

  /** The requests that write the entry's file, after `before`: the probe,
      then the PUT of its Markdown with the entry's commit message. */
  ghost predicate EntryRequests(before: seq<Request>, after: seq<Request>, e: Entry)
  {
    var n := |before|;
    && |after| == n + 2 && after[..n] == before
    && after[n] == Get(EntryPath(e.slug))
    && after[n + 1].Put? && after[n + 1].path == EntryPath(e.slug)
    && after[n + 1].content == ToBase64(EntryMarkdown(e))
    && after[n + 1].message == EntryMessage(e.title)
  }

  /** The requests that append `e` to the index, after `before`: read it,
      then write back the entries it held with `e` last, naming the sha it
      was read with. */
  ghost predicate IndexRequests(before: seq<Request>, after: seq<Request>, index: StoredFile, e: Entry)
    requires StoredIndex(index.content).Some?
  {
    after == before + [Get(IndexPath)] + [
      Put(IndexPath, IndexContent(StoredIndex(index.content).value + [e]), Some(index.sha), IndexMessage(e.title))]
  }

  /** The requests of a save that threw nothing, after `before`, given the
      index file as the save found it. */
  ghost predicate SaveRequests(before: seq<Request>, after: seq<Request>, index: StoredFile, e: Entry)
    requires StoredIndex(index.content).Some?
  {
    && |after| == |before| + 4
    && EntryRequests(before, after[..|before| + 2], e)
    && IndexRequests(after[..|before| + 2], after, index, e)
  }

  /** The index after a save: the write of the index is not checked, so it
      is either unchanged or holds the old entries with `e` appended. */
  ghost predicate IndexAfterSave(index: StoredFile, after: map<string, StoredFile>, e: Entry)
    requires StoredIndex(index.content).Some?
  {
    && IndexPath in after
    && (after[IndexPath] == index
        || StoredIndex(after[IndexPath].content) == Some(StoredIndex(index.content).value + [e]))
  }

  /** `after` differs from `before` at most at the paths in `changed`. */
  ghost predicate SameExcept(before: map<string, StoredFile>, after: map<string, StoredFile>, changed: set<string>)
  {
    forall p :: p !in changed ==> (p in after <==> p in before) && (p in after ==> after[p] == before[p])
  }

  /** The entry's Markdown file is stored, as the script uploads it. */
  ghost predicate EntryFileWritten(files: map<string, StoredFile>, e: Entry)
  {
    EntryPath(e.slug) in files && files[EntryPath(e.slug)].content == ToBase64(EntryMarkdown(e))
  }

  /** A PUT changes at most the file it names. */
  lemma AfterPutSameExcept(files: map<string, StoredFile>, path: string, content: string)
    ensures forall r: Response<Sha> :: SameExcept(files, AfterPut(files, path, content, r), {path})
  {
  }

  lemma SameExceptTrans(a: map<string, StoredFile>, b: map<string, StoredFile>, c: map<string, StoredFile>, s: set<string>, t: set<string>)
    requires SameExcept(a, b, s) && SameExcept(b, c, t)
    ensures SameExcept(a, c, s + t)
  {
  }

  /** The index found in `files`, when there is one that parses. */
  ghost predicate HasIndex(files: map<string, StoredFile>)
  {
    IndexPath in files && StoredIndex(files[IndexPath].content).Some?
  }

  /** Whatever the answer to the write of an index with `e` appended, the
      index afterwards is either the one read or reads back with `e` last. */
  lemma WrittenIndex(files: map<string, StoredFile>, e: Entry, put: Response<Sha>)
    requires HasIndex(files)
    ensures var index := files[IndexPath];
      IndexAfterSave(index, AfterPut(files, IndexPath, IndexContent(StoredIndex(index.content).value + [e]), put), e)
  {
    var updated := StoredIndex(files[IndexPath].content).value + [e];
    if put.Ok? {
      StoredIndexContent(updated);
    }
  }

  /** The index is appended to without looking for the slug: when it
      already lists an entry with the new entry's slug and the write is
      accepted, it lists two entries with that slug afterwards. */
  lemma DuplicateSlugAfterSave(index: StoredFile, after: map<string, StoredFile>, e: Entry, i: nat)
    requires StoredIndex(index.content).Some?
    requires IndexAfterSave(index, after, e) && after[IndexPath] != index
    requires i < |StoredIndex(index.content).value| && StoredIndex(index.content).value[i].slug == e.slug
    ensures var ys := StoredIndex(after[IndexPath].content);
      && ys.Some? && i < |ys.value| - 1
      && ys.value[i].slug == e.slug && ys.value[|ys.value| - 1].slug == e.slug
  {
    var xs := StoredIndex(index.content).value;
    assert StoredIndex(after[IndexPath].content) == Some(xs + [e]);
    assert (xs + [e])[i] == xs[i];
  }

  /** The answer to the PUT of `githubCreateFile` for `path`, when `n`
      requests have been made before its probe. */
  ghost function CreatePut(files: map<string, StoredFile>, faults: map<nat, Fault>, n: nat, path: string, newSha: Sha): Response<Sha>
  {
    var probe := GetResponse(files, FaultAt(faults, n), path);
    PutResponse(files, FaultAt(faults, n + 1), path, ProbeSha(probe), newSha)
  }

  /** What reading the index yields when `n` requests have been made. */
  ghost function IndexRead(files: map<string, StoredFile>, faults: map<nat, Fault>, n: nat): Result<(seq<Entry>, Sha)>
  {
    ReadIndex(GetResponse(files, FaultAt(faults, n), IndexPath))
  }

  /** Appending to the index, started after `n` requests, throws nothing:
      the index is read, and its write gets an answer of some kind. */
  ghost predicate AppendSucceeds(files: map<string, StoredFile>, faults: map<nat, Fault>, n: nat)
  {
    IndexRead(files, faults, n).Success? && FaultAt(faults, n + 1) != Some(Offline)
  }

  /** A save, started after `n` requests, throws nothing: the entry's file
      is created, then the index appended to. Creating the entry's file
      leaves the index alone, so the index is read as it was at the start. */
  ghost predicate PublishSucceeds(files: map<string, StoredFile>, faults: map<nat, Fault>, n: nat, e: Entry, newSha: Sha)
  {
    CreatePut(files, faults, n, EntryPath(e.slug), newSha).Ok? && AppendSucceeds(files, faults, n + 2)
  }

  /** How a save that started from `files` after the requests `before`
      ends when it throws `error`, with the requests `after` sent and the
      files `files'` left: a failed create throws its error after the
      entry's two requests and changes nothing; a failed index read throws
      its error after those and one GET, the entry's file written; an
      index write without an answer throws `Disconnected` after all four. */
  ghost predicate PublishThrew(files: map<string, StoredFile>, faults: map<nat, Fault>, before: seq<Request>, newSha: Sha, e: Entry,
                               error: Error, after: seq<Request>, files': map<string, StoredFile>)
  {
    var n := |before|;
    var put := CreatePut(files, faults, n, EntryPath(e.slug), newSha);
    var read := IndexRead(files, faults, n + 2);
    if !put.Ok? then
      && error == CreateOutcome(EntryPath(e.slug), put).error
      && EntryRequests(before, after, e)
      && files' == files
    else if read.Failure? then
      && error == read.error
      && |after| == n + 3
      && EntryRequests(before, after[..n + 2], e)
      && after[n + 2] == Get(IndexPath)
      && EntryFileWritten(files', e)
    else
      && error == Disconnected
      && HasIndex(files)
      && SaveRequests(before, after, files[IndexPath], e)
      && EntryFileWritten(files', e)
  }

  /** The answer to the index write is not examined: on a store holding a
      readable index, whose one scheduled fault refuses that write (request
      3 of the save), the save throws nothing. `Publish` then reports
      success although the index is left as it was. */
  lemma RefusedIndexWriteSaves(xs: seq<Entry>, sha: Sha, e: Entry, newSha: Sha, status: nat, message: string)
    ensures
      var files := map[IndexPath := StoredFile(IndexContent(xs), sha)];
      var faults := map[3 := Refused(status, message)];
      && CreatePut(files, faults, 0, EntryPath(e.slug), newSha) == Ok(newSha)
      && IndexRead(files, faults, 2) == Success((xs, sha))
      && FaultAt(faults, 3) == Some(Refused(status, message))
      && PublishSucceeds(files, faults, 0, e, newSha)
  {
    var files := map[IndexPath := StoredFile(IndexContent(xs), sha)];
    assert EntryPath(e.slug) !in files;
    StoredIndexContent(xs);
  }

  /** The second half of the `try` in `saveToGitHub()`: fetch the index,
      append the entry and write it back. A failed read throws; the answer
      to the write is not examined, so only a write that gets no answer at
      all throws. Returns what was thrown, if anything. */
  method AppendToIndex(store: Store, e: Entry) returns (thrown: Option<Error>)
    requires store.Valid()
    modifies store
    ensures store.Valid()
    ensures thrown.None? ==> HasIndex(old(store.files))
    ensures thrown.None? ==> IndexRequests(old(store.log), store.log, old(store.files)[IndexPath], e)
    ensures thrown.None? ==> IndexAfterSave(old(store.files)[IndexPath], store.files, e)
    ensures thrown.Some? ==> store.files == old(store.files)
    ensures SameExcept(old(store.files), store.files, {IndexPath})
    ensures store.faults == old(store.faults)
    ensures thrown.None? <==> AppendSucceeds(old(store.files), old(store.faults), |old(store.log)|)
    ensures var read := IndexRead(old(store.files), old(store.faults), |old(store.log)|);
      read.Failure? ==> thrown == Some(read.error) && store.log == old(store.log) + [Get(IndexPath)]
    ensures IndexRead(old(store.files), old(store.faults), |old(store.log)|).Success? ==>
      && HasIndex(old(store.files))
      && IndexRequests(old(store.log), store.log, old(store.files)[IndexPath], e)
      && (thrown.Some? ==> thrown == Some(Disconnected))
    ensures thrown.None? ==>
      (store.files[IndexPath] == old(store.files)[IndexPath] <==> FaultAt(old(store.faults), |old(store.log)| + 1).Some?)
  {
    ghost var log0, files0, sha0 := store.log, store.files, store.nextSha;
    var indexResult := store.Fetch(IndexPath);
    assert store.NextFault() == FaultAt(old(store.faults), |old(store.log)| + 1);
    var read := ReadIndex(indexResult);
    assert read == IndexRead(files0, store.faults, |log0|);
    if read.Failure? {
      return Some(read.error);
    }
    assert indexResult.Ok? && indexResult.value == files0[IndexPath];
    var (current, sha) := read.value;
    ghost var index := files0[IndexPath];
    assert current == StoredIndex(index.content).value && sha == index.sha;
    var updated := current + [e];
    var content := IndexContent(updated);
    var put := store.Write(IndexPath, content, Some(sha), IndexMessage(e.title));
    AfterPutSameExcept(files0, IndexPath, content);
    PutUnanswered(files0, FaultAt(store.faults, |log0| + 1), IndexPath, Some(sha), sha0);
    if put.Unreachable? {
      return Some(Disconnected);
    }
    WrittenIndex(files0, e, put);
    assert put.Ok? ==> store.files[IndexPath].sha == sha0 > index.sha;
    return None;
  }

  /** The first step of `saveToGitHub()`'s `try`: `githubCreateFile` for
      the entry's Markdown file. The index is left as it was, so the read
      that follows sees what it would have seen two requests earlier. */
  method CreateEntryFile(store: Store, e: Entry) returns (created: Result<Sha>)
    requires store.Valid()
    modifies store
    ensures store.Valid()
    ensures store.faults == old(store.faults)
    ensures created == CreateOutcome(EntryPath(e.slug), CreatePut(old(store.files), old(store.faults), |old(store.log)|, EntryPath(e.slug), old(store.nextSha)))
    ensures EntryRequests(old(store.log), store.log, e)
    ensures SameExcept(old(store.files), store.files, {EntryPath(e.slug)})
    ensures created.Failure? ==> store.files == old(store.files)
    ensures created.Success? ==> EntryFileWritten(store.files, e)
    ensures (IndexPath in store.files <==> IndexPath in old(store.files))
      && (IndexPath in old(store.files) ==> store.files[IndexPath] == old(store.files)[IndexPath])
    ensures IndexRead(store.files, store.faults, |store.log|) == IndexRead(old(store.files), old(store.faults), |old(store.log)| + 2)
  {
    ghost var log0, files0, sha0 := store.log, store.files, store.nextSha;
    var mdPath := EntryPath(e.slug);
    ghost var put := CreatePut(files0, store.faults, |log0|, mdPath, sha0);
    created := GithubCreateFile(store, mdPath, EntryMarkdown(e), EntryMessage(e.title));
    assert created == CreateOutcome(mdPath, put);
    AfterPutSameExcept(files0, mdPath, ToBase64(EntryMarkdown(e)));
    EntryRequestsOf(log0, store.log, e);
    IndexUntouched(files0, mdPath, ToBase64(EntryMarkdown(e)));
    assert GetResponse(store.files, store.NextFault(), IndexPath) == GetResponse(files0, store.NextFault(), IndexPath);
  }

  /** The remote part of `saveToGitHub()`, the body of its `try`: write the
      entry's Markdown file, then append the entry to the index. Returns
      what was thrown, if anything. */
  method Publish(store: Store, e: Entry) returns (thrown: Option<Error>)
    requires store.Valid()
    modifies store
    ensures store.Valid()
    ensures thrown.None? ==> HasIndex(old(store.files))
    ensures thrown.None? ==> SaveRequests(old(store.log), store.log, old(store.files)[IndexPath], e)
    ensures thrown.None? ==> IndexAfterSave(old(store.files)[IndexPath], store.files, e)
    ensures thrown.None? ==> EntryFileWritten(store.files, e)
    ensures thrown.None? ==> SameExcept(old(store.files), store.files, {EntryPath(e.slug), IndexPath})
    ensures thrown.Some? ==> SameExcept(old(store.files), store.files, {EntryPath(e.slug)})
    ensures thrown.Some? ==> EntryFileWritten(store.files, e) || store.files == old(store.files)
    ensures store.faults == old(store.faults)
    ensures thrown.None? <==> PublishSucceeds(old(store.files), old(store.faults), |old(store.log)|, e, old(store.nextSha))
    ensures thrown.Some? ==>
      PublishThrew(old(store.files), old(store.faults), old(store.log), old(store.nextSha), e, thrown.value, store.log, store.files)
    ensures thrown.None? ==>
      (store.files[IndexPath] == old(store.files)[IndexPath] <==> FaultAt(old(store.faults), |old(store.log)| + 3).Some?)
  {
    ghost var log0, files0 := store.log, store.files;
    var created := CreateEntryFile(store, e);
    if created.Failure? {
      return Some(created.error);
    }
    ghost var log1, files1 := store.log, store.files;
    var mdPath := EntryPath(e.slug);
    thrown := AppendToIndex(store, e);
    EntryFileKept(files1, store.files, e);
    SameExceptTrans(files0, files1, store.files, {mdPath}, {IndexPath});
    if IndexRead(files0, store.faults, |log0| + 2).Success? {
      SaveRequestsOf(log0, log1, store.log, files0[IndexPath], e);
    } else {
      assert store.log[..|log0| + 2] == log1;
    }
  }

  /** The two requests of `githubCreateFile` for the entry's file, whatever
      sha the probe produced, are the entry's requests. */
  lemma EntryRequestsOf(before: seq<Request>, after: seq<Request>, e: Entry)
    requires exists sha ::
      after == before + [Get(EntryPath(e.slug)), Put(EntryPath(e.slug), ToBase64(EntryMarkdown(e)), sha, EntryMessage(e.title))]
    ensures EntryRequests(before, after, e)
  {
    var n := |before|;
    assert after[..n] == before;
  }

  /** Touching only the index leaves the entry's file as it was. */
  lemma EntryFileKept(before: map<string, StoredFile>, after: map<string, StoredFile>, e: Entry)
    requires EntryFileWritten(before, e) && SameExcept(before, after, {IndexPath})
    ensures EntryFileWritten(after, e)
  {
    assert EntryPath(e.slug) != IndexPath;
  }

  /** Writing another file leaves the index as it was. */
  lemma IndexUntouched(files: map<string, StoredFile>, path: string, content: string)
    requires path != IndexPath
    ensures forall r: Response<Sha> ::
      (IndexPath in AfterPut(files, path, content, r) <==> IndexPath in files)
      && (IndexPath in files ==> AfterPut(files, path, content, r)[IndexPath] == files[IndexPath])
  {
  }

  /** The entry's requests followed by the index requests make a save. */
  lemma SaveRequestsOf(before: seq<Request>, mid: seq<Request>, after: seq<Request>, index: StoredFile, e: Entry)
    requires StoredIndex(index.content).Some?
    requires EntryRequests(before, mid, e) && IndexRequests(mid, after, index, e)
    ensures SaveRequests(before, after, index, e)
  {
    assert |mid| == |before| + 2;
    var put := Put(IndexPath, IndexContent(StoredIndex(index.content).value + [e]), Some(index.sha), IndexMessage(e.title));
    PrefixOfTwoMore(mid, Get(IndexPath), put, after);
  }

  lemma PrefixOfTwoMore<T>(s: seq<T>, x: T, y: T, t: seq<T>)
    requires t == s + [x] + [y]
    ensures |t| == |s| + 2 && t[..|s|] == s
  {
    assert t[..|s|] == s;
  }

  // ------------------------------------------------------------ the page

  class Page {
    /** `allEntries`, `activeFilter` and `searchQuery`. */
    var entries: seq<Entry>
    var activeFilter: string
    var searchQuery: string

    /** What the gallery shows: `filterEntries()` over the state. */
    function Visible(): seq<Entry>
      reads this
    {
      FilterEntries(entries, activeFilter, searchQuery)
    }

    constructor()
      ensures entries == [] && activeFilter == AllPlatforms && searchQuery == []
    {
      entries := [];
      activeFilter := AllPlatforms;
      searchQuery := [];
    }

    /** `saveToGitHub()`: the form is checked, then the settings, before
        any request; the local catalog gains the entry, and the filters are
        reset, only when no step threw. */
    method SaveToGitHub(form: Form, settings: Settings, store: Store) returns (r: SaveResult)
      requires store.Valid()
      modifies this, store
      ensures store.Valid()
      ensures r == Invalid <==> BuildEntry(form).None?
      ensures r == NotConfigured <==> BuildEntry(form).Some? && !IsConfigured(settings)
      ensures r == Invalid || r == NotConfigured ==> store.log == old(store.log) && store.files == old(store.files)
      ensures !r.Saved? ==> entries == old(entries) && activeFilter == old(activeFilter) && searchQuery == old(searchQuery)
      ensures r.Saved? ==>
        var e := BuildEntry(form).value;
        && entries == old(entries) + [e]
        && activeFilter == AllPlatforms && searchQuery == []
        && Visible() == entries
        && HasIndex(old(store.files))
        && SaveRequests(old(store.log), store.log, old(store.files)[IndexPath], e)
        && IndexAfterSave(old(store.files)[IndexPath], store.files, e)
        && EntryFileWritten(store.files, e)
        && SameExcept(old(store.files), store.files, {EntryPath(e.slug), IndexPath})
      ensures r.Failed? ==>
        && BuildEntry(form).Some?
        && var e := BuildEntry(form).value;
        && SameExcept(old(store.files), store.files, {EntryPath(e.slug)})
        && (EntryFileWritten(store.files, e) || store.files == old(store.files))
        && PublishThrew(old(store.files), old(store.faults), old(store.log), old(store.nextSha), e, r.error, store.log, store.files)
      ensures r.Saved? <==>
        && BuildEntry(form).Some? && IsConfigured(settings)
        && PublishSucceeds(old(store.files), old(store.faults), |old(store.log)|, BuildEntry(form).value, old(store.nextSha))
      ensures r.Saved? ==>
        (store.files[IndexPath] == old(store.files)[IndexPath] <==> FaultAt(old(store.faults), |old(store.log)| + 3).Some?)
    {
      var built := BuildEntry(form);
      if built.None? {
        return Invalid;
      }
      var e := built.value;
      if !IsConfigured(settings) {
        return NotConfigured;
      }
      var thrown := SaveEntry(e, store);
      if thrown.Some? {
        return Failed(thrown.value);
      }
      r := Saved;
    }

    /** The `try` block of `saveToGitHub()`: publish the entry, then, when
        nothing was thrown, record it locally. Returns what was thrown. */
    method SaveEntry(e: Entry, store: Store) returns (thrown: Option<Error>)
      requires store.Valid()
      modifies this, store
      ensures store.Valid()
      ensures thrown.None? <==> PublishSucceeds(old(store.files), old(store.faults), |old(store.log)|, e, old(store.nextSha))
      ensures thrown.Some? ==>
        && entries == old(entries) && activeFilter == old(activeFilter) && searchQuery == old(searchQuery)
        && SameExcept(old(store.files), store.files, {EntryPath(e.slug)})
        && (EntryFileWritten(store.files, e) || store.files == old(store.files))
        && PublishThrew(old(store.files), old(store.faults), old(store.log), old(store.nextSha), e, thrown.value, store.log, store.files)
      ensures thrown.None? ==>
        && entries == old(entries) + [e]
        && activeFilter == AllPlatforms && searchQuery == []
        && Visible() == entries
        && HasIndex(old(store.files))
        && SaveRequests(old(store.log), store.log, old(store.files)[IndexPath], e)
        && IndexAfterSave(old(store.files)[IndexPath], store.files, e)
        && EntryFileWritten(store.files, e)
        && SameExcept(old(store.files), store.files, {EntryPath(e.slug), IndexPath})
        && (store.files[IndexPath] == old(store.files)[IndexPath] <==> FaultAt(old(store.faults), |old(store.log)| + 3).Some?)
    {
      thrown := Publish(store, e);
      if thrown.None? {
        Record(e);
      }
    }

    /** The end of a save that threw nothing: the entry joins the local
        catalog and both filters are cleared, so the gallery shows every
        entry, the new one last. */
    method Record(e: Entry)
      modifies this
      ensures entries == old(entries) + [e]
      ensures activeFilter == AllPlatforms && searchQuery == []
      ensures Visible() == entries
    {
      entries := entries + [e];
      activeFilter := AllPlatforms;
      searchQuery := [];
      FilterEntriesShowsAll(entries);
    }

    /** `downloadEntry()`: the entry's Markdown file and the index with the
        entry appended, built from a copy of the catalog. */
    method DownloadEntry(form: Form) returns (r: Option<Download>)
      ensures r.Some? <==> BuildEntry(form).Some?
      ensures r.Some? ==>
        var e := BuildEntry(form).value;
        && r.value.markdownName == e.slug + ".md" && r.value.markdown == EntryMarkdown(e)
        && r.value.indexName == IndexPath && ParseIndex(r.value.index) == Some(entries + [e])
    {
      var built := BuildEntry(form);
      if built.None? {
        return None;
      }
      var e := built.value;
      var md := EntryMarkdown(e);
      var updated := entries;
      updated := updated + [e];
      var json := IndexText(updated);
      ParseIndexText(updated);
      r := Some(Download(e.slug + ".md", md, IndexPath, json));
    }
  }
}
