/** Properties of the requirements filter: what each rule keeps, that it
    only removes, that it keeps order and keys, that the image filter
    de-duplicates across groups, and that the whole filter is idempotent. */
module FilterProperties {
  import opened Filter

  // ---------------------------------------------------------------------------
  // Ordered dicts

  lemma {:induction false} KeySetConcat<V>(a: seq<(string, V)>, b: seq<(string, V)>)
    ensures KeySet(a + b) == KeySet(a) + KeySet(b)
  {
    if a == [] {
      assert a + b == b;
    } else {
      assert (a + b)[0] == a[0] && (a + b)[1..] == a[1..] + b;
      KeySetConcat(a[1..], b);
    }
  }

  lemma {:induction false} KeyInKeySet<V>(s: seq<(string, V)>, k: int)
    requires 0 <= k < |s|
    ensures s[k].0 in KeySet(s)
  {
    if k > 0 {
      KeyInKeySet(s[1..], k - 1);
    }
  }

  lemma {:induction false} MemberKeyInKeySet<V>(s: seq<(string, V)>, e: (string, V))
    requires e in s
    ensures e.0 in KeySet(s)
  {
    if s[0] != e {
      MemberKeyInKeySet(s[1..], e);
    }
  }

  /** In a dict, two positions with the same key are the same position. */
  lemma {:induction false} DistinctKeysIndex<V>(s: seq<(string, V)>, k1: int, k2: int)
    requires DistinctKeys(s)
    requires 0 <= k1 < |s| && 0 <= k2 < |s| && s[k1].0 == s[k2].0
    ensures k1 == k2
  {
    if k1 == 0 && k2 > 0 {
      KeyInKeySet(s[1..], k2 - 1);
    } else if k2 == 0 && k1 > 0 {
      KeyInKeySet(s[1..], k1 - 1);
    } else if k1 > 0 && k2 > 0 {
      DistinctKeysIndex(s[1..], k1 - 1, k2 - 1);
    }
  }

  lemma {:induction false} SubsequenceReflexive<T>(a: seq<T>)
    ensures IsSubsequence(a, a)
  {
    if a != [] {
      SubsequenceReflexive(a[1..]);
    }
  }

  // ---------------------------------------------------------------------------
  // Dashboard gate

  /** Without 'grafana' the dashboards list becomes empty whatever it held;
      with it the list is untouched. */
  lemma DashboardGate(c: Catalog, features: set<string>)
    ensures "grafana" !in features ==> FilterManifest(c, features).dashboards == []
    ensures "grafana" in features ==> FilterManifest(c, features).dashboards == c.dashboards
  {
  }

  // ---------------------------------------------------------------------------
  // File filter

  /** An entry (key and data) is in the filtered files exactly when it was in
      the original files and its deps are 'default' or meet a requested feature. */
  lemma {:induction false} FilterFilesMember(files: Files, features: set<string>, e: (string, FileEntry))
    ensures e in FilterFiles(files, features) <==> e in files && KeepFile(e.1, features)
  {
    if files != [] {
      FilterFilesMember(files[1..], features, e);
      assert files == [files[0]] + files[1..];
    }
  }

  /** A 'default' entry is kept whatever the requested features, the empty set included. */
  lemma {:induction false} DefaultFileKept(files: Files, features: set<string>, e: (string, FileEntry))
    requires e in files && e.1.deps == Default
    ensures e in FilterFiles(files, features)
  {
    FilterFilesMember(files, features, e);
  }

  /** An entry whose deps list is empty is always excluded. */
  lemma {:induction false} EmptyDepsFileDropped(files: Files, features: set<string>, e: (string, FileEntry))
    requires e.1.deps == Deps([])
    ensures e !in FilterFiles(files, features)
  {
    FilterFilesMember(files, features, e);
  }

  /** The filtered files are the original entries with some deleted, in the original order. */
  lemma {:induction false} FilterFilesOrder(files: Files, features: set<string>)
    ensures IsSubsequence(FilterFiles(files, features), files)
  {
    if files != [] {
      FilterFilesOrder(files[1..], features);
      var r := FilterFiles(files, features);
      if KeepFile(files[0].1, features) {
        assert r[0] == files[0] && r[1..] == FilterFiles(files[1..], features);
      } else if r != [] {
        assert IsSubsequence(r, files[1..]);
      }
    }
  }

  lemma {:induction false} FilterFilesKeySet(files: Files, features: set<string>)
    ensures KeySet(FilterFiles(files, features)) <= KeySet(files)
  {
    if files != [] {
      FilterFilesKeySet(files[1..], features);
      if KeepFile(files[0].1, features) {
        KeySetConcat([files[0]], FilterFiles(files[1..], features));
      }
    }
  }

  /** Filtering a dict yields a dict. */
  lemma {:induction false} FilterFilesDistinct(files: Files, features: set<string>)
    requires DistinctKeys(files)
    ensures DistinctKeys(FilterFiles(files, features))
  {
    if files != [] {
      FilterFilesDistinct(files[1..], features);
      FilterFilesKeySet(files[1..], features);
      if KeepFile(files[0].1, features) {
        assert ([files[0]] + FilterFiles(files[1..], features))[1..] == FilterFiles(files[1..], features);
      }
    }
  }

  lemma {:induction false} FilterFilesIdempotent(files: Files, features: set<string>)
    ensures FilterFiles(FilterFiles(files, features), features) == FilterFiles(files, features)
  {
    if files != [] {
      FilterFilesIdempotent(files[1..], features);
      if KeepFile(files[0].1, features) {
        var r := FilterFiles(files, features);
        assert r[0] == files[0] && r[1..] == FilterFiles(files[1..], features);
      }
    }
  }

  lemma {:induction false} ExcludedKeysInKeySet(files: Files, features: set<string>, k: string)
    requires k in ExcludedKeys(files, features)
    ensures k in KeySet(files)
  {
    if files[0].0 != k {
      ExcludedKeysInKeySet(files[1..], features, k);
    }
  }

  /** In a dict, an entry's key is in `files_to_exclude` exactly when the entry fails the filter. */
  lemma {:induction false} ExcludedKeysExact(files: Files, features: set<string>)
    requires DistinctKeys(files)
    ensures forall e :: e in files ==> (e.0 in ExcludedKeys(files, features) <==> !KeepFile(e.1, features))
  {
    if files != [] {
      ExcludedKeysExact(files[1..], features);
      forall e | e in files
        ensures e.0 in ExcludedKeys(files, features) <==> !KeepFile(e.1, features)
      {
        if e == files[0] {
          if e.0 in ExcludedKeys(files[1..], features) {
            ExcludedKeysInKeySet(files[1..], features, e.0);
          }
        } else {
          assert e in files[1..];
          MemberKeyInKeySet(files[1..], e);
        }
      }
    }
  }

  /** Rebuilding by key against any exclusion list that marks exactly the failing entries gives the filtered files. */
  lemma {:induction false} RetainNotInAgrees(files: Files, exclude: seq<string>, features: set<string>)
    requires forall e :: e in files ==> (e.0 in exclude <==> !KeepFile(e.1, features))
    ensures RetainNotIn(files, exclude) == FilterFiles(files, features)
  {
    if files != [] {
      assert files[0] in files;
      RetainNotInAgrees(files[1..], exclude, features);
    }
  }

  /** Collecting `files_to_exclude` first and rebuilding the dict without those
      keys is the same as keeping exactly the entries that pass the filter. */
  lemma ExcludeThenRetain(files: Files, features: set<string>)
    requires DistinctKeys(files)
    ensures RetainNotIn(files, ExcludedKeys(files, features)) == FilterFiles(files, features)
  {
    ExcludedKeysExact(files, features);
    RetainNotInAgrees(files, ExcludedKeys(files, features), features);
  }

  /** When nothing is to be excluded the files dict is left as it is, which is the filtered dict. */
  lemma {:induction false} NothingExcluded(files: Files, features: set<string>)
    requires ExcludedKeys(files, features) == []
    ensures FilterFiles(files, features) == files
  {
    if files != [] {
      NothingExcluded(files[1..], features);
      assert files == [files[0]] + files[1..];
    }
  }

  // ---------------------------------------------------------------------------
  // One group's images

  /** The ids kept from a group are the group's ids not selected before. */
  lemma {:induction false} PickKeys(imgs: ImageGroup, selected: set<string>)
    ensures KeySet(PickImages(imgs, selected)) == KeySet(imgs) - selected
  {
    if imgs != [] {
      if imgs[0].0 in selected {
        PickKeys(imgs[1..], selected);
      } else {
        PickKeys(imgs[1..], selected + {imgs[0].0});
        KeySetConcat([imgs[0]], PickImages(imgs[1..], selected + {imgs[0].0}));
      }
    }
  }

  /** The images kept from a group never repeat an id. */
  lemma {:induction false} PickDistinct(imgs: ImageGroup, selected: set<string>)
    ensures DistinctKeys(PickImages(imgs, selected))
  {
    if imgs != [] {
      if imgs[0].0 in selected {
        PickDistinct(imgs[1..], selected);
      } else {
        var rest := PickImages(imgs[1..], selected + {imgs[0].0});
        PickDistinct(imgs[1..], selected + {imgs[0].0});
        PickKeys(imgs[1..], selected + {imgs[0].0});
        assert ([imgs[0]] + rest)[1..] == rest;
      }
    }
  }

  /** In a dict, an (id, data) pair is kept exactly when it is in the group and the id was not selected before. */
  lemma {:induction false} PickMember(imgs: ImageGroup, selected: set<string>, id: string, d: ImageData)
    requires DistinctKeys(imgs)
    ensures (id, d) in PickImages(imgs, selected) <==> (id, d) in imgs && id !in selected
  {
    if imgs != [] {
      assert imgs == [imgs[0]] + imgs[1..];
      if imgs[0].0 in selected {
        PickMember(imgs[1..], selected, id, d);
      } else {
        PickMember(imgs[1..], selected + {imgs[0].0}, id, d);
        if (id, d) in imgs[1..] {
          MemberKeyInKeySet(imgs[1..], (id, d));
        }
      }
    }
  }

  lemma {:induction false} PickSubsequence(imgs: ImageGroup, selected: set<string>)
    ensures IsSubsequence(PickImages(imgs, selected), imgs)
  {
    if imgs != [] {
      var r := PickImages(imgs, selected);
      if imgs[0].0 in selected {
        PickSubsequence(imgs[1..], selected);
        if r != [] {
          assert IsSubsequence(r, imgs[1..]);
        }
      } else {
        PickSubsequence(imgs[1..], selected + {imgs[0].0});
        assert r[0] == imgs[0] && r[1..] == PickImages(imgs[1..], selected + {imgs[0].0});
      }
    }
  }

  /** A group with distinct ids, none selected before, is kept whole. */
  lemma {:induction false} PickUnchanged(imgs: ImageGroup, selected: set<string>)
    requires DistinctKeys(imgs) && KeySet(imgs) !! selected
    ensures PickImages(imgs, selected) == imgs
  {
    if imgs != [] {
      PickUnchanged(imgs[1..], selected + {imgs[0].0});
      assert imgs == [imgs[0]] + imgs[1..];
    }
  }

  // ---------------------------------------------------------------------------
  // All groups

  /** The group keys are the original keys in the original order, and every
      group that is not a requested feature maps to an empty dict. */
  lemma {:induction false} FilterGroupsKeys(groups: Images, features: set<string>, selected: set<string>)
    ensures Keys(FilterGroups(groups, features, selected)) == Keys(groups)
    ensures forall j :: 0 <= j < |groups| && groups[j].0 !in features ==>
              FilterGroups(groups, features, selected)[j].1 == []
  {
    if groups != [] {
      var kept := PickImages(groups[0].1, selected);
      var next := if groups[0].0 in features then selected + KeySet(kept) else selected;
      FilterGroupsKeys(groups[1..], features, next);
      var r := FilterGroups(groups, features, selected);
      assert r[1..] == FilterGroups(groups[1..], features, next);
      assert Keys(r) == [r[0].0] + Keys(r[1..]);
    }
  }

  /** Each group's kept images are a subsequence of its original images. */
  lemma {:induction false} FilterGroupsSubsequence(groups: Images, features: set<string>, selected: set<string>)
    ensures |FilterGroups(groups, features, selected)| == |groups|
    ensures forall j :: 0 <= j < |groups| ==>
              IsSubsequence(FilterGroups(groups, features, selected)[j].1, groups[j].1)
  {
    if groups != [] {
      var kept := PickImages(groups[0].1, selected);
      var next := if groups[0].0 in features then selected + KeySet(kept) else selected;
      FilterGroupsSubsequence(groups[1..], features, next);
      PickSubsequence(groups[0].1, selected);
      var r := FilterGroups(groups, features, selected);
      assert r[1..] == FilterGroups(groups[1..], features, next);
      forall j | 0 <= j < |groups|
        ensures IsSubsequence(r[j].1, groups[j].1)
      {
        if j > 0 {
          assert r[j] == r[1..][j - 1] && groups[j] == groups[1..][j - 1];
        }
      }
    }
  }

  /** No kept id was selected before the walk, and no group repeats an id. */
  lemma {:induction false} FilterGroupsAvoid(groups: Images, features: set<string>, selected: set<string>, j: int)
    requires 0 <= j < |groups|
    ensures |FilterGroups(groups, features, selected)| == |groups|
    ensures KeySet(FilterGroups(groups, features, selected)[j].1) !! selected
    ensures DistinctKeys(FilterGroups(groups, features, selected)[j].1)
  {
    var kept := PickImages(groups[0].1, selected);
    var next := if groups[0].0 in features then selected + KeySet(kept) else selected;
    FilterGroupsKeys(groups[1..], features, next);
    var r := FilterGroups(groups, features, selected);
    assert r[1..] == FilterGroups(groups[1..], features, next);
    if j == 0 {
      PickKeys(groups[0].1, selected);
      PickDistinct(groups[0].1, selected);
    } else {
      FilterGroupsAvoid(groups[1..], features, next, j - 1);
      assert r[j] == r[1..][j - 1];
    }
  }

  /** Two different groups never keep the same id. */
  lemma {:induction false} FilterGroupsDisjoint(groups: Images, features: set<string>, selected: set<string>, j1: int, j2: int)
    requires 0 <= j1 < j2 < |groups|
    ensures |FilterGroups(groups, features, selected)| == |groups|
    ensures KeySet(FilterGroups(groups, features, selected)[j1].1)
            !! KeySet(FilterGroups(groups, features, selected)[j2].1)
  {
    var kept := PickImages(groups[0].1, selected);
    var next := if groups[0].0 in features then selected + KeySet(kept) else selected;
    FilterGroupsKeys(groups[1..], features, next);
    var r := FilterGroups(groups, features, selected);
    assert r[1..] == FilterGroups(groups[1..], features, next);
    assert r[j2] == r[1..][j2 - 1];
    if j1 == 0 {
      FilterGroupsAvoid(groups[1..], features, next, j2 - 1);
    } else {
      FilterGroupsDisjoint(groups[1..], features, next, j1 - 1, j2 - 1);
      assert r[j1] == r[1..][j1 - 1];
    }
  }

  /** Each image id appears at most once in the whole filtered images dict. */
  lemma FilterImagesUnique(images: Images, features: set<string>, j1: int, k1: int, j2: int, k2: int)
    requires 0 <= j1 < |FilterImages(images, features)| && 0 <= j2 < |FilterImages(images, features)|
    requires 0 <= k1 < |FilterImages(images, features)[j1].1|
    requires 0 <= k2 < |FilterImages(images, features)[j2].1|
    requires FilterImages(images, features)[j1].1[k1].0 == FilterImages(images, features)[j2].1[k2].0
    ensures j1 == j2 && k1 == k2
  {
    var r := FilterImages(images, features);
    FilterGroupsSubsequence(images, features, {});
    KeyInKeySet(r[j1].1, k1);
    KeyInKeySet(r[j2].1, k2);
    if j1 < j2 {
      FilterGroupsDisjoint(images, features, {}, j1, j2);
    } else if j2 < j1 {
      FilterGroupsDisjoint(images, features, {}, j2, j1);
    } else {
      FilterGroupsAvoid(images, features, {}, j1);
      DistinctKeysIndex(r[j1].1, k1, k2);
    }
  }

  /** The ids held by the requested groups before position j. */
  ghost function RequestedIdsBefore(groups: Images, features: set<string>, j: nat): set<string>
    requires j <= |groups|
  {
    if j == 0 then {}
    else (if groups[0].0 in features then KeySet(groups[0].1) else {})
         + RequestedIdsBefore(groups[1..], features, j - 1)
  }

  /** An id is outside `RequestedIdsBefore` exactly when no earlier requested group holds it. */
  lemma {:induction false} RequestedIdsBeforeExact(groups: Images, features: set<string>, j: nat, id: string)
    requires j <= |groups|
    ensures id !in RequestedIdsBefore(groups, features, j) <==>
              forall i :: 0 <= i < j && groups[i].0 in features ==> id !in KeySet(groups[i].1)
  {
    if j > 0 {
      RequestedIdsBeforeExact(groups[1..], features, j - 1, id);
      assert forall i :: 0 <= i < j - 1 ==> groups[1..][i] == groups[i + 1];
      if id !in RequestedIdsBefore(groups, features, j) {
        forall i | 0 <= i < j && groups[i].0 in features ensures id !in KeySet(groups[i].1) {
          if i > 0 {
            assert groups[i] == groups[1..][i - 1];
          }
        }
      }
    }
  }

  /** When every group is a dict, an image (id and data) is kept in group j
      exactly when group j is requested, holds that image, the id was not
      selected before, and no earlier requested group holds that id. */
  lemma {:induction false} FilterGroupsMember(groups: Images, features: set<string>, selected: set<string>,
                                               j: nat, id: string, d: ImageData)
    requires j < |groups|
    requires forall i :: 0 <= i < |groups| ==> DistinctKeys(groups[i].1)
    ensures |FilterGroups(groups, features, selected)| == |groups|
    ensures (id, d) in FilterGroups(groups, features, selected)[j].1 <==>
              groups[j].0 in features && (id, d) in groups[j].1 && id !in selected &&
              id !in RequestedIdsBefore(groups, features, j)
  {
    var kept := PickImages(groups[0].1, selected);
    var next := if groups[0].0 in features then selected + KeySet(kept) else selected;
    FilterGroupsKeys(groups[1..], features, next);
    var r := FilterGroups(groups, features, selected);
    assert r[1..] == FilterGroups(groups[1..], features, next);
    if j == 0 {
      if groups[0].0 in features {
        PickMember(groups[0].1, selected, id, d);
      }
    } else {
      PickKeys(groups[0].1, selected);
      assert forall i :: 0 <= i < |groups| - 1 ==> groups[1..][i] == groups[i + 1];
      FilterGroupsMember(groups[1..], features, next, j - 1, id, d);
      assert r[j] == r[1..][j - 1] && groups[j] == groups[1..][j - 1];
    }
  }

  /** An image lands in the first requested group, in catalog order, that holds
      its id, with its original data; no other group keeps it. */
  lemma FilterImagesMember(images: Images, features: set<string>, j: nat, id: string, d: ImageData)
    requires j < |images|
    requires forall i :: 0 <= i < |images| ==> DistinctKeys(images[i].1)
    ensures |FilterImages(images, features)| == |images|
    ensures (id, d) in FilterImages(images, features)[j].1 <==>
              images[j].0 in features && (id, d) in images[j].1 &&
              forall i :: 0 <= i < j && images[i].0 in features ==> id !in KeySet(images[i].1)
  {
    FilterGroupsMember(images, features, {}, j, id, d);
    RequestedIdsBeforeExact(images, features, j, id);
  }

  // ---------------------------------------------------------------------------
  // Idempotence of the image filter

  /** `h` is already what the image filter produces from `selected`: unrequested
      groups are empty, every group is a dict, and no id repeats or was selected. */
  ghost predicate Settled(h: Images, features: set<string>, selected: set<string>)
  {
    h == [] ||
    ((h[0].0 !in features ==> h[0].1 == []) && DistinctKeys(h[0].1) && KeySet(h[0].1) !! selected
     && Settled(h[1..], features, selected + KeySet(h[0].1)))
  }

  lemma {:induction false} FilterGroupsSettled(groups: Images, features: set<string>, selected: set<string>)
    ensures Settled(FilterGroups(groups, features, selected), features, selected)
  {
    if groups != [] {
      var kept := PickImages(groups[0].1, selected);
      var r := FilterGroups(groups, features, selected);
      if groups[0].0 in features {
        PickKeys(groups[0].1, selected);
        PickDistinct(groups[0].1, selected);
        FilterGroupsSettled(groups[1..], features, selected + KeySet(kept));
        assert r[1..] == FilterGroups(groups[1..], features, selected + KeySet(kept));
      } else {
        FilterGroupsSettled(groups[1..], features, selected);
        assert r[1..] == FilterGroups(groups[1..], features, selected);
        assert selected + KeySet(r[0].1) == selected;
      }
    }
  }

  lemma {:induction false} SettledFixed(h: Images, features: set<string>, selected: set<string>)
    requires Settled(h, features, selected)
    ensures FilterGroups(h, features, selected) == h
  {
    if h != [] {
      if h[0].0 in features {
        PickUnchanged(h[0].1, selected);
      } else {
        assert selected + KeySet(h[0].1) == selected;
      }
      SettledFixed(h[1..], features, selected + KeySet(h[0].1));
      assert h == [h[0]] + h[1..];
    }
  }

  lemma FilterImagesIdempotent(images: Images, features: set<string>)
    ensures FilterImages(FilterImages(images, features), features) == FilterImages(images, features)
  {
    FilterGroupsSettled(images, features, {});
    SettledFixed(FilterImages(images, features), features, {});
  }

  // ---------------------------------------------------------------------------
  // The whole filter

  /** Filtering twice with the same features gives the same catalog as filtering once. */
  lemma FilterManifestIdempotent(c: Catalog, features: set<string>)
    ensures FilterManifest(FilterManifest(c, features), features) == FilterManifest(c, features)
  {
    FilterFilesIdempotent(c.files, features);
    FilterImagesIdempotent(c.images, features);
  }

  /** The filter only removes: files and dashboards are subsequences of the
      originals, the image group keys are unchanged, and each group's images
      are a subsequence of the original group. */
  lemma FilterManifestOnlyRemoves(c: Catalog, features: set<string>)
    ensures IsSubsequence(FilterManifest(c, features).files, c.files)
    ensures IsSubsequence(FilterManifest(c, features).dashboards, c.dashboards)
    ensures Keys(FilterManifest(c, features).images) == Keys(c.images)
    ensures forall j :: 0 <= j < |c.images| ==>
              IsSubsequence(FilterManifest(c, features).images[j].1, c.images[j].1)
  {
    FilterFilesOrder(c.files, features);
    SubsequenceReflexive(c.dashboards);
    FilterGroupsKeys(c.images, features, {});
    FilterGroupsSubsequence(c.images, features, {});
  }

  /** Filtering a catalog whose dicts have distinct keys yields such a catalog. */
  lemma FilterManifestValid(c: Catalog, features: set<string>)
    requires ValidCatalog(c)
    ensures ValidCatalog(FilterManifest(c, features))
  {
    FilterFilesDistinct(c.files, features);
    FilterImagesValid(c.images, features);
  }

  /** The filtered images dict has distinct group keys and every group is a dict. */
  lemma FilterImagesValid(images: Images, features: set<string>)
    requires DistinctKeys(images)
    ensures DistinctKeys(FilterImages(images, features))
    ensures forall j :: 0 <= j < |FilterImages(images, features)| ==> DistinctKeys(FilterImages(images, features)[j].1)
  {
    FilterGroupsKeys(images, features, {});
    var r := FilterImages(images, features);
    KeysDistinct(r, images);
    forall j | 0 <= j < |r| ensures DistinctKeys(r[j].1) {
      FilterGroupsAvoid(images, features, {}, j);
    }
  }

  lemma {:induction false} KeysDistinct<V, W>(a: seq<(string, V)>, b: seq<(string, W)>)
    requires Keys(a) == Keys(b) && DistinctKeys(b)
    ensures DistinctKeys(a)
  {
    if a != [] {
      assert a[0].0 == Keys(a)[0] == b[0].0;
      assert Keys(a[1..]) == Keys(a)[1..] == Keys(b)[1..] == Keys(b[1..]);
      KeysDistinct(a[1..], b[1..]);
      KeySetOfKeys(a[1..], b[1..]);
    }
  }

  lemma {:induction false} KeySetOfKeys<V, W>(a: seq<(string, V)>, b: seq<(string, W)>)
    requires Keys(a) == Keys(b)
    ensures KeySet(a) == KeySet(b)
  {
    if a != [] {
      assert a[0].0 == Keys(a)[0] == b[0].0;
      assert Keys(a[1..]) == Keys(a)[1..] == Keys(b)[1..] == Keys(b[1..]);
      KeySetOfKeys(a[1..], b[1..]);
    }
  }
}
