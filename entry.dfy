/**
 * The catalog entry, the add-entry form it is built from
 * (`buildEntryFromForm`, script.js) and the remote settings whose presence
 * `isGitHubConfigured` tests.
 */
module Entries {
  import opened Text
  import opened Slug

  /** One catalogued image, with its fields in the order the script builds them. */
  datatype Entry = Entry(
    slug: string,
    title: string,
    imageUrl: string,
    platform: string,
    date: string,
    tags: string,
    prompt: string)

  /** The raw values of the add-entry form's fields. */
  datatype Form = Form(
    title: string,
    platform: string,
    imageUrl: string,
    date: string,
    tags: string,
    prompt: string)

  /** The saved connection settings. The branch only selects where the
      remote reads and writes, which the remote store model leaves implicit. */
  datatype Settings = Settings(owner: string, repo: string, branch: string, token: string)

  /** `isGitHubConfigured()` */
  predicate IsConfigured(s: Settings)
  {
    s.owner != [] && s.repo != [] && s.token != []
  }

  predicate Trimmed(s: string)
  {
    s == [] || (!IsSpace(s[0]) && !IsSpace(s[|s| - 1]))
  }

  /** What every entry the form produces satisfies: the required fields are
      present, the slug is derived from the title, and the trimmed fields have
      no white space at either end. */
  predicate WellFormedEntry(e: Entry)
  {
    && e.title != [] && e.platform != [] && e.imageUrl != [] && e.prompt != []
    && e.slug == Slugify(e.title)
    && Trimmed(e.title) && Trimmed(e.imageUrl) && Trimmed(e.tags) && Trimmed(e.prompt)
  }

  /** `buildEntryFromForm()`: trims title, image URL, tags and prompt (not the
      platform or the date), and refuses the form when title, platform, image
      URL or prompt is empty. */
  function BuildEntry(f: Form): (r: Option<Entry>)
    ensures r.Some? <==>
      Trim(f.title) != [] && f.platform != [] && Trim(f.imageUrl) != [] && Trim(f.prompt) != []
    ensures r.Some? ==> WellFormedEntry(r.value)
    ensures r.Some? ==>
      && r.value.title == Trim(f.title) && r.value.platform == f.platform
      && r.value.imageUrl == Trim(f.imageUrl) && r.value.date == f.date
      && r.value.tags == Trim(f.tags) && r.value.prompt == Trim(f.prompt)
  {
    var title := Trim(f.title);
    var platform := f.platform;
    var imageUrl := Trim(f.imageUrl);
    var date := f.date;
    var tags := Trim(f.tags);
    var prompt := Trim(f.prompt);
    if title == [] || platform == [] || imageUrl == [] || prompt == [] then None
    else
      assert Trimmed(title) && Trimmed(imageUrl) && Trimmed(tags) && Trimmed(prompt);
      Some(Entry(Slugify(title), title, imageUrl, platform, date, tags, prompt))
  }
}
