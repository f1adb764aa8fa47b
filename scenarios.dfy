/** Concrete catalogs run through the filter. */
module Scenarios {
  import opened Filter

  /** The features requested when the cluster asks only for `repository`
      (count 1, every other component count 0) and the feature mapping of
      `repository` is [repository, firewall, filebeat, node-exporter]. */
  const RepositoryOnly: set<string> := {"repository", "firewall", "filebeat", "node-exporter"}

  /** A catalog with a kafka-only file, a 'default' file, one dashboard and
      image groups `repository` and `kafka`. */
  const Sample := Catalog(
    [("kafka-file", FileEntry(Deps(["kafka"]), map[])),
     ("common-file", FileEntry(Default, map[]))],
    ["dashboard"],
    [("repository", [("registry:2", map[])]),
     ("kafka", [("kafka:3", map[])])])

  /** Only the 'default' file survives, the dashboards are cleared because
      'grafana' is not requested, and the `kafka` group keeps its key with no images. */
  lemma RepositoryOnlyScenario()
    ensures "grafana" !in RepositoryOnly
    ensures FilterManifest(Sample, RepositoryOnly) ==
            Catalog([("common-file", FileEntry(Default, map[]))],
                    [],
                    [("repository", [("registry:2", map[])]), ("kafka", [])])
  {
    var files := Sample.files;
    assert "kafka" !in RepositoryOnly;
    assert !AnyRequested(["kafka"], RepositoryOnly);
    assert FilterFiles(files, RepositoryOnly) == FilterFiles(files[1..], RepositoryOnly);
    assert FilterFiles(files[1..], RepositoryOnly) == [files[1]] + FilterFiles(files[2..], RepositoryOnly);
    var images := Sample.images;
    assert PickImages(images[0].1, {}) == [("registry:2", map[])] by {
      assert PickImages(images[0].1, {}) == [images[0].1[0]] + PickImages(images[0].1[1..], {"registry:2"});
    }
    assert FilterGroups(images, RepositoryOnly, {}) ==
           [("repository", [("registry:2", map[])])] + FilterGroups(images[1..], RepositoryOnly, {"registry:2"});
    assert FilterGroups(images[1..], RepositoryOnly, {"registry:2"}) ==
           [("kafka", [])] + FilterGroups(images[2..], RepositoryOnly, {"registry:2"});
  }

  /** Two requested groups share an image id: only the first group keeps it. */
  lemma SharedImageScenario()
    ensures FilterImages([("repository", [("shared:1", map["v" := "1"]), ("r:1", map[])]),
                          ("kafka", [("shared:1", map["v" := "2"]), ("k:1", map[])])],
                         {"repository", "kafka"}) ==
            [("repository", [("shared:1", map["v" := "1"]), ("r:1", map[])]),
             ("kafka", [("k:1", map[])])]
  {
    var g0: ImageGroup := [("shared:1", map["v" := "1"]), ("r:1", map[])];
    var g1: ImageGroup := [("shared:1", map["v" := "2"]), ("k:1", map[])];
    var images: Images := [("repository", g0), ("kafka", g1)];
    var f := {"repository", "kafka"};
    assert "shared:1" != "r:1" && "shared:1" != "k:1";
    assert PickImages(g0, {}) == g0 by {
      assert PickImages(g0, {}) == [g0[0]] + PickImages(g0[1..], {"shared:1"});
      assert PickImages(g0[1..], {"shared:1"}) == [g0[1]] + PickImages(g0[2..], {"shared:1", "r:1"});
    }
    assert KeySet(g0) == {"shared:1", "r:1"} by {
      assert KeySet(g0) == {"shared:1"} + KeySet(g0[1..]);
      assert KeySet(g0[1..]) == {"r:1"} + KeySet(g0[2..]);
    }
    assert {} + KeySet(PickImages(g0, {})) == {"shared:1", "r:1"};
    assert PickImages(g1, {"shared:1", "r:1"}) == [g1[1]] by {
      assert PickImages(g1, {"shared:1", "r:1"}) == PickImages(g1[1..], {"shared:1", "r:1"});
      assert PickImages(g1[1..], {"shared:1", "r:1"}) == [g1[1]] + PickImages(g1[2..], {"shared:1", "r:1", "k:1"});
    }
    assert FilterGroups(images, f, {}) == [("repository", g0)] + FilterGroups(images[1..], f, {"shared:1", "r:1"});
    assert FilterGroups(images[1..], f, {"shared:1", "r:1"}) ==
           [("kafka", [g1[1]])] + FilterGroups(images[2..], f, {"shared:1", "r:1", "k:1"});
  }
}
