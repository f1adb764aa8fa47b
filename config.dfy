/** The manifest-driven part of the download-requirements configuration: the
    requirements dict that is filtered in place, and the methods that filter it. */
module Config {
  import opened Errors
  import opened Filter
  import FilterProperties

  /** The part of the manifest reader's output that `Config` reads. The filter
      uses only `requestedFeatures`; `requestedComponents` is read only by the
      verbose summary, which is not modelled. */
  datatype ParsedManifest = ParsedManifest(requestedComponents: set<string>, requestedFeatures: set<string>)

  /** How the call to the manifest reader ends: a parsed summary, the
      `OldManifestVersion` exception, or any other exception. */
  datatype ManifestReading =
    | Parsed(manifest: ParsedManifest)
    | OldManifestVersion
    | Raised(error: Error)

  /** The requirements dict, whose three keys the filter reassigns. */
  class Requirements {
    var files: Files
    var dashboards: seq<string>
    var images: Images

    constructor (c: Catalog)
      requires ValidCatalog(c)
      ensures Value() == c && Valid()
    {
      files, dashboards, images := c.files, c.dashboards, c.images;
    }

    function Value(): Catalog
      reads this
    {
      Catalog(files, dashboards, images)
    }

    /** Every dict of the requirements has distinct keys. */
    ghost predicate Valid()
      reads this
    {
      ValidCatalog(Value())
    }
  }

  /** The loop that collects `files_to_exclude`. */
  method FilesToExclude(files: Files, features: set<string>) returns (exclude: seq<string>)
    ensures exclude == ExcludedKeys(files, features)
    ensures DistinctKeys(files) ==>
              forall e :: e in files ==> (e.0 in exclude <==> !KeepFile(e.1, features))
  {
    exclude := [];
    var i := 0;
    while i < |files|
      invariant 0 <= i <= |files|
      invariant exclude + ExcludedKeys(files[i..], features) == ExcludedKeys(files, features)
    {
      var (file, entry) := files[i];
      assert files[i..] == [files[i]] + files[i + 1..];
      if !entry.deps.Default? && forall d :: d in entry.deps.features ==> d !in features {
        exclude := exclude + [file];
      }
      i := i + 1;
    }
    assert files[i..] == [];
    if DistinctKeys(files) {
      FilterProperties.ExcludedKeysExact(files, features);
    }
  }

  /** The inner loop over one requested group: walks its images in order and
      keeps each one whose id is not yet in `selected_images`, adding that id. */
  method SelectGroupImages(imgs: ImageGroup, selected: set<string>) returns (kept: ImageGroup, selectedAfter: set<string>)
    ensures kept == PickImages(imgs, selected)
    ensures selectedAfter == selected + KeySet(kept)
    ensures KeySet(kept) == KeySet(imgs) - selected
  {
    kept, selectedAfter := [], selected;
    var k := 0;
    while k < |imgs|
      invariant 0 <= k <= |imgs|
      invariant kept + PickImages(imgs[k..], selectedAfter) == PickImages(imgs, selected)
      invariant selectedAfter == selected + KeySet(kept)
    {
      var (image, data) := imgs[k];
      assert imgs[k..] == [imgs[k]] + imgs[k + 1..];
      if image !in selectedAfter {
        FilterProperties.KeySetConcat(kept, [(image, data)]);
        kept := kept + [(image, data)];
        selectedAfter := selectedAfter + {image};
      }
      k := k + 1;
    }
    assert imgs[k..] == [];
    FilterProperties.PickKeys(imgs, selected);
  }

  /** The two loops that build `images_to_download`: one empty dict per group,
      then, for each requested group, its images not yet in `selected_images`. */
  method ImagesToDownload(images: Images, features: set<string>) returns (toDownload: Images)
    ensures toDownload == FilterImages(images, features)
    ensures Keys(toDownload) == Keys(images)
  {
    toDownload := [];
    for i := 0 to |images|
      invariant |toDownload| == i
      invariant forall j :: 0 <= j < i ==> toDownload[j] == (images[j].0, [])
    {
      toDownload := toDownload + [(images[i].0, [])];
    }
    var selected: set<string> := {};
    var i := 0;
    while i < |images|
      invariant 0 <= i <= |images| && |toDownload| == |images|
      invariant toDownload[..i] + FilterGroups(images[i..], features, selected) == FilterImages(images, features)
      invariant forall j :: i <= j < |images| ==> toDownload[j] == (images[j].0, [])
    {
      var (group, imgs) := images[i];
      assert images[i..] == [images[i]] + images[i + 1..];
      if group in features {
        var kept;
        kept, selected := SelectGroupImages(imgs, selected);
        toDownload := toDownload[i := (group, kept)];
      }
      assert toDownload[..i + 1] == toDownload[..i] + [toDownload[i]];
      i := i + 1;
    }
    assert images[i..] == [] && toDownload[..i] == toDownload;
    FilterProperties.FilterGroupsKeys(images, features, {});
  }

  class Config {
    /** The `--manifest` path, when one was given. */
    var destManifest: Option<string>

    constructor (destManifest: Option<string>)
      ensures this.destManifest == destManifest
    {
      this.destManifest := destManifest;
    }

    /** Drops every file entry whose deps are not 'default' and meet no requested feature. */
    method FilterFiles(requirements: Requirements, manifest: ParsedManifest)
      requires requirements.Valid()
      modifies requirements
      ensures requirements.Valid()
      ensures requirements.files == Filter.FilterFiles(old(requirements.files), manifest.requestedFeatures)
      ensures requirements.dashboards == old(requirements.dashboards)
      ensures requirements.images == old(requirements.images)
    {
      var files := requirements.files;
      var exclude := FilesToExclude(files, manifest.requestedFeatures);
      if exclude != [] {
        requirements.files := RetainNotIn(files, exclude);
        FilterProperties.ExcludeThenRetain(files, manifest.requestedFeatures);
      } else {
        FilterProperties.NothingExcluded(files, manifest.requestedFeatures);
      }
      FilterProperties.FilterFilesDistinct(files, manifest.requestedFeatures);
    }

    /** Replaces the images dict by `images_to_download` when that is not empty. */
    method FilterImages(requirements: Requirements, manifest: ParsedManifest)
      requires requirements.Valid()
      modifies requirements
      ensures requirements.Valid()
      ensures requirements.images == Filter.FilterImages(old(requirements.images), manifest.requestedFeatures)
      ensures requirements.files == old(requirements.files)
      ensures requirements.dashboards == old(requirements.dashboards)
    {
      var toDownload := ImagesToDownload(requirements.images, manifest.requestedFeatures);
      if toDownload != [] {
        requirements.images := toDownload;
      }
      FilterProperties.FilterImagesValid(old(requirements.images), manifest.requestedFeatures);
    }

    /** The dashboard gate, then the file filter, then the image filter. */
    method FilterManifest(requirements: Requirements, manifest: ParsedManifest)
      requires requirements.Valid()
      modifies requirements
      ensures requirements.Valid()
      ensures requirements.Value() == Filter.FilterManifest(old(requirements.Value()), manifest.requestedFeatures)
      ensures "grafana" !in manifest.requestedFeatures ==> requirements.dashboards == []
    {
      if "grafana" !in manifest.requestedFeatures {
        requirements.dashboards := [];
      }
      FilterFiles(requirements, manifest);
      FilterImages(requirements, manifest);
    }

    /** Filters the requirements by the manifest when a manifest path is set and
        the manifest reader succeeds. `reading` is what the manifest reader's
        `parse_manifest` does with the file at `destManifest`. */
    method ReadManifest(requirements: Requirements, reading: ManifestReading) returns (outcome: Outcome)
      requires requirements.Valid()
      modifies requirements
      ensures requirements.Valid()
      ensures destManifest.None? ==> outcome == Pass && requirements.Value() == old(requirements.Value())
      ensures destManifest.Some? && reading.OldManifestVersion? ==>
                outcome == Pass && requirements.Value() == old(requirements.Value())
      ensures destManifest.Some? && reading.Raised? ==>
                outcome == Fail(reading.error) && requirements.Value() == old(requirements.Value())
      ensures destManifest.Some? && reading.Parsed? ==>
                outcome == Pass &&
                requirements.Value() == Filter.FilterManifest(old(requirements.Value()),
                                                              reading.manifest.requestedFeatures)
    {
      if destManifest.None? {
        return Pass;
      }
      match reading
      case Parsed(manifest) =>
        FilterManifest(requirements, manifest);
        outcome := Pass;
      case OldManifestVersion =>
        outcome := Pass;
      case Raised(error) =>
        outcome := Fail(error);
    }
  }
}
