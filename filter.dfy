/** The requirements catalog and the manifest-driven filter over it, as pure
    specification functions. Python dicts iterate in insertion order, so every
    dict of the catalog is an ordered sequence of (key, value) pairs whose keys
    are distinct. */
module Filter {

  /** The `deps` field of a file entry: the literal string 'default', or a list
      of feature names. */
  datatype Deps = Default | Deps(features: seq<string>)

  /** A file entry: its `deps` and its other fields, which the filter passes
      through untouched. */
  datatype FileEntry = FileEntry(deps: Deps, fields: map<string, string>)

  /** The metadata of one image, passed through untouched. */
  type ImageData = map<string, string>

  type Files = seq<(string, FileEntry)>
  type ImageGroup = seq<(string, ImageData)>
  type Images = seq<(string, ImageGroup)>

  /** The requirements dict with its three top-level keys `files`,
      `grafana-dashboards` and `images`. */
  datatype Catalog = Catalog(files: Files, dashboards: seq<string>, images: Images)

  /** The set of keys of an ordered dict. */
  function KeySet<V>(s: seq<(string, V)>): set<string>
  {
    if s == [] then {} else {s[0].0} + KeySet(s[1..])
  }

  /** The keys of an ordered dict in iteration order. */
  function Keys<V>(s: seq<(string, V)>): (r: seq<string>)
    ensures |r| == |s|
  {
    if s == [] then [] else [s[0].0] + Keys(s[1..])
  }

  /** No key occurs twice: the sequence is a dict. */
  predicate DistinctKeys<V>(s: seq<(string, V)>)
  {
    s == [] || (s[0].0 !in KeySet(s[1..]) && DistinctKeys(s[1..]))
  }

  /** Every dict of the catalog has distinct keys. */
  predicate ValidCatalog(c: Catalog)
  {
    DistinctKeys(c.files) && DistinctKeys(c.images)
    && forall j :: 0 <= j < |c.images| ==> DistinctKeys(c.images[j].1)
  }

  /** `a` is obtained from `b` by deleting elements (order kept). */
  predicate IsSubsequence<T(==)>(a: seq<T>, b: seq<T>)
  {
    if a == [] then true
    else if b == [] then false
    else (a[0] == b[0] && IsSubsequence(a[1..], b[1..])) || IsSubsequence(a, b[1..])
  }

  // ---------------------------------------------------------------------------
  // Dashboard gate

  /** `grafana-dashboards` after the gate: emptied unless 'grafana' is requested. */
  function FilterDashboards(dashboards: seq<string>, features: set<string>): seq<string>
  {
    if "grafana" !in features then [] else dashboards
  }

  // ---------------------------------------------------------------------------
  // File filter

  /** Some dep of the entry is a requested feature. */
  predicate AnyRequested(deps: seq<string>, features: set<string>)
  {
    exists d :: d in deps && d in features
  }

  /** The entry survives the file filter: its deps are 'default', or one of them
      is requested. */
  predicate KeepFile(e: FileEntry, features: set<string>)
  {
    e.deps.Default? || AnyRequested(e.deps.features, features)
  }

  /** The files dict after filtering, entries kept in their original order. */
  function FilterFiles(files: Files, features: set<string>): Files
  {
    if files == [] then []
    else if KeepFile(files[0].1, features) then [files[0]] + FilterFiles(files[1..], features)
    else FilterFiles(files[1..], features)
  }

  /** The keys that the file filter excludes, in iteration order: the
      `files_to_exclude` list. */
  function ExcludedKeys(files: Files, features: set<string>): seq<string>
  {
    if files == [] then []
    else (if KeepFile(files[0].1, features) then [] else [files[0].0]) + ExcludedKeys(files[1..], features)
  }

  /** The dict comprehension that rebuilds `files` without the excluded keys. */
  function RetainNotIn(files: Files, exclude: seq<string>): Files
  {
    if files == [] then []
    else if files[0].0 !in exclude then [files[0]] + RetainNotIn(files[1..], exclude)
    else RetainNotIn(files[1..], exclude)
  }

  // ---------------------------------------------------------------------------
  // Image filter

  /** Walks one requested group's images in order, keeping an image only if its
      id is not yet in `selected`, and adding each kept id to `selected`. */
  function PickImages(imgs: ImageGroup, selected: set<string>): ImageGroup
  {
    if imgs == [] then []
    else if imgs[0].0 in selected then PickImages(imgs[1..], selected)
    else [imgs[0]] + PickImages(imgs[1..], selected + {imgs[0].0})
  }

  /** The `images_to_download` dict built from the groups, given the ids
      `selected` so far: every group keeps its key; an unrequested group maps to
      an empty dict; a requested group keeps its images not selected before. */
  function FilterGroups(groups: Images, features: set<string>, selected: set<string>): Images
  {
    if groups == [] then []
    else if groups[0].0 in features then
      var kept := PickImages(groups[0].1, selected);
      [(groups[0].0, kept)] + FilterGroups(groups[1..], features, selected + KeySet(kept))
    else
      [(groups[0].0, [])] + FilterGroups(groups[1..], features, selected)
  }

  /** The images dict after filtering: `selected_images` starts empty. */
  function FilterImages(images: Images, features: set<string>): Images
  {
    FilterGroups(images, features, {})
  }

  // ---------------------------------------------------------------------------
  // The whole filter

  /** The catalog after the dashboard gate, the file filter and the image filter. */
  function FilterManifest(c: Catalog, features: set<string>): Catalog
  {
    Catalog(FilterFiles(c.files, features), FilterDashboards(c.dashboards, features),
            FilterImages(c.images, features))
  }
}
