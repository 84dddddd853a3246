/**
 * The project record and the reading of a repository's `.portfolio/config.yml`
 * (already loaded by the YAML library) into it, filling in defaults.
 */
module ProjectConfig {

  import opened Wrappers
  import opened JsValue

  /**
   * One portfolio entry. The fields set from configuration are filled by
   * `ParseConfig`; `stars`, `forks` and `language` stay `None` (unset) until the
   * harvester backfills them from repository metadata.
   */
  datatype Project = Project(
    name: string,
    slug: string,
    description: string,
    techStack: seq<Value>,
    tags: seq<Value>,
    liveUrl: Option<string>,
    repoUrl: string,
    thumbnail: Option<string>,
    readmePath: string,
    createdAt: Option<string>,
    updatedAt: Option<string>,
    featured: bool,
    isActive: bool,
    stars: Option<int>,
    forks: Option<int>,
    language: Option<string>)

  /** The message of the error `parseConfig` throws. */
  const InvalidFormat: string := "Invalid configuration format"

  /** The file name a project's descriptive document has unless configured otherwise. */
  const DefaultReadme: string := "README.md"

  /** The project every key-less document yields. */
  const Defaults: Project :=
    Project("", "", "", [], [], None, "", None, DefaultReadme, None, None, false, true, None, None, None)

  /** `Array.isArray(v) ? v : []` */
  function ListOrEmpty(v: Value): seq<Value> {
    if v.Arr? then v.items else []
  }

  /** The `is_active` rule: `true` when the key is undefined, its truthiness otherwise. */
  predicate ActiveFlag(v: Value) {
    if v != Undefined then Truthy(v) else true
  }

  /**
   * Reads a loaded configuration document. A falsy document or one that is
   * not of JavaScript type `object` is rejected; lists pass that test.
   */
  function ParseConfig(data: Value): (r: Result<Project, string>)
    ensures r.Failure? <==> !(data.Obj? || data.Arr?)
    ensures r.Failure? ==> r.error == InvalidFormat
    ensures r.Success? && data.Arr? ==> r.value == Defaults
    ensures r.Success? ==> r.value.stars.None? && r.value.forks.None? && r.value.language.None?
    ensures r.Success? ==> r.value.readmePath != ""
  {
    if !Truthy(data) || !IsObjectType(data) then
      Failure(InvalidFormat)
    else
      Success(Project(
        name := TextOr(Get(data, "name"), ""),
        slug := TextOr(Get(data, "slug"), ""),
        description := TextOr(Get(data, "description"), ""),
        techStack := ListOrEmpty(Get(data, "tech_stack")),
        tags := ListOrEmpty(Get(data, "tags")),
        liveUrl := TextOrNull(Get(data, "live_url")),
        repoUrl := TextOr(Get(data, "repo_url"), ""),
        thumbnail := TextOrNull(Get(data, "thumbnail")),
        readmePath := TextOr(Get(data, "readme_path"), DefaultReadme),
        createdAt := TextOrNull(Get(data, "created_at")),
        updatedAt := TextOrNull(Get(data, "updated_at")),
        featured := Truthy(Get(data, "featured")),
        isActive := ActiveFlag(Get(data, "is_active")),
        stars := None,
        forks := None,
        language := None))
  }

  /** Every key that is missing from a mapping takes its default. */
  lemma ParseConfigDefaults(data: Value, key: string)
    requires data.Obj? && key !in data.fields
    ensures var p := ParseConfig(data).value;
      && (key == "name" ==> p.name == "")
      && (key == "slug" ==> p.slug == "")
      && (key == "description" ==> p.description == "")
      && (key == "tech_stack" ==> p.techStack == [])
      && (key == "tags" ==> p.tags == [])
      && (key == "live_url" ==> p.liveUrl == None)
      && (key == "repo_url" ==> p.repoUrl == "")
      && (key == "thumbnail" ==> p.thumbnail == None)
      && (key == "readme_path" ==> p.readmePath == DefaultReadme)
      && (key == "created_at" ==> p.createdAt == None)
      && (key == "updated_at" ==> p.updatedAt == None)
      && (key == "featured" ==> !p.featured)
      && (key == "is_active" ==> p.isActive)
  {
  }

  /**
   * `is_active` is tested with `!== undefined`: an explicit `null` (or any
   * falsy value) switches the project off, a missing key leaves it on.
   */
  lemma IsActiveRule(fields: map<string, Value>)
    ensures "is_active" !in fields ==> ParseConfig(Obj(fields)).value.isActive
    ensures "is_active" in fields && fields["is_active"] != Undefined ==>
      (ParseConfig(Obj(fields)).value.isActive <==> Truthy(fields["is_active"]))
    ensures "is_active" in fields && fields["is_active"] == Null ==> !ParseConfig(Obj(fields)).value.isActive
  {
  }

  /** `featured` is `false` unless the configured value is truthy. */
  lemma FeaturedRule(fields: map<string, Value>)
    ensures ParseConfig(Obj(fields)).value.featured <==> "featured" in fields && Truthy(fields["featured"])
  {
  }

  /** The keys whose value is read with `config.x || d`. */
  const StringKeys: set<string> :=
    {"name", "slug", "description", "repo_url", "readme_path", "live_url", "thumbnail", "created_at", "updated_at"}

  /** The non-empty string a mapping holds under `key`, if it holds one. */
  function Configured(fields: map<string, Value>, key: string): Option<string> {
    if key in fields then
      match fields[key]
      case Str(text) => if |text| > 0 then Some(text) else None
      case _ => None
    else None
  }

  /**
   * `config.x || d` for the string keys: a configured non-empty string is
   * kept, and a key that is absent or holds a falsy value (`''`, `null`,
   * `false`, `0`) takes its default — `''`, `null` or `"README.md"`.
   */
  lemma StringFieldsRule(fields: map<string, Value>)
    ensures var p := ParseConfig(Obj(fields)).value;
      && p.name == Configured(fields, "name").GetOr("")
      && p.slug == Configured(fields, "slug").GetOr("")
      && p.description == Configured(fields, "description").GetOr("")
      && p.repoUrl == Configured(fields, "repo_url").GetOr("")
      && p.readmePath == Configured(fields, "readme_path").GetOr(DefaultReadme)
      && p.liveUrl == Configured(fields, "live_url")
      && p.thumbnail == Configured(fields, "thumbnail")
      && p.createdAt == Configured(fields, "created_at")
      && p.updatedAt == Configured(fields, "updated_at")
  {
    forall key, d | key in StringKeys
      ensures TextOr(Get(Obj(fields), key), d) == Configured(fields, key).GetOr(d)
      ensures TextOrNull(Get(Obj(fields), key)) == Configured(fields, key)
    {
    }
  }

  /** A string key that is present with a falsy value (`''`, `null`, `false`, `0`) takes its default, as a missing one does. */
  lemma FalsyStringTakesDefault(fields: map<string, Value>, key: string)
    requires key in fields && !Truthy(fields[key])
    ensures var p := ParseConfig(Obj(fields)).value;
      && (key == "name" ==> p.name == "")
      && (key == "slug" ==> p.slug == "")
      && (key == "description" ==> p.description == "")
      && (key == "live_url" ==> p.liveUrl == None)
      && (key == "repo_url" ==> p.repoUrl == "")
      && (key == "thumbnail" ==> p.thumbnail == None)
      && (key == "readme_path" ==> p.readmePath == DefaultReadme)
      && (key == "created_at" ==> p.createdAt == None)
      && (key == "updated_at" ==> p.updatedAt == None)
  {
  }

  /** Lists under `tech_stack` and `tags` are kept as they are, anything else becomes `[]`. */
  lemma ListFieldsRule(fields: map<string, Value>)
    ensures var p := ParseConfig(Obj(fields)).value;
      && ("tech_stack" in fields && fields["tech_stack"].Arr? ==> p.techStack == fields["tech_stack"].items)
      && (!("tech_stack" in fields && fields["tech_stack"].Arr?) ==> p.techStack == [])
      && ("tags" in fields && fields["tags"].Arr? ==> p.tags == fields["tags"].items)
      && (!("tags" in fields && fields["tags"].Arr?) ==> p.tags == [])
  {
  }
}
