/** The catalog builder object: its scan walks the asset tree once and
    rebuilds the chosen root's catalog in place; the catalog is then handed
    to the renderer as a key-sorted list. */
module TBCB3K {
  import opened Wrappers
  import opened Strings
  import opened Catalog

  /** Overwriting one key of one inner map twice keeps only the second value. */
  lemma NestedOverwrite<K, L, V>(all: map<K, map<L, V>>, root: K, inner: map<L, V>, key: L, a: V, b: V)
    ensures var m := all[root := inner[key := a]];
            m[root := m[root][key := b]] == all[root := inner[key := b]]
  {
    var m := all[root := inner[key := a]];
    assert m[root][key := b] == inner[key := b];
  }

  /** Writing a key twice keeps only the second value. */
  lemma UpdateTwice<K, V>(m: map<K, V>, k: K, a: V, b: V)
    ensures m[k := a][k := b] == m[k := b]
  {
  }

  class TurBoCB3K {
    /** The directory chosen by the user; unset until then. */
    var dirPath: Option<string>
    var rootPath: Option<string>
    var rootName: Option<string>
    /** The walk of the last scan. */
    var fileTree: Option<seq<WalkStep>>
    /** Root name -> that root's catalog. */
    var models: map<string, Models>
    /** The weight of the last model directory scanned. */
    var tileFormat: Option<real>

    constructor ()
      ensures dirPath == None && rootPath == None && rootName == None && fileTree == None
      ensures models == map[] && tileFormat == None
    {
      dirPath := None;
      rootPath := None;
      rootName := None;
      fileTree := None;
      models := map[];
      tileFormat := None;
    }

    /** Scans `walk`, the bottom-up `os.walk` of the chosen directory. The
        root's catalog is reset, then every model directory replaces the
        entry under its sanitized name, until a badly named one raises
        its index error; what was built up to there stays. No other root's
        catalog changes. */
    method Scan(walk: seq<WalkStep>) returns (error: Option<ScanError>)
      requires dirPath.Some?
      modifies this
      ensures dirPath == old(dirPath) && rootPath == old(dirPath) && fileTree == Some(walk)
      ensures rootName == Some(Basename(old(dirPath).value))
      ensures var r := ScanFrom(rootName.value, map[], old(tileFormat), walk);
              models == old(models)[rootName.value := r.models] && tileFormat == r.tileFormat && error == r.error
    {
      rootPath := dirPath;
      var root := Basename(rootPath.value);
      rootName := Some(root);
      fileTree := Some(walk);
      models := models[root := map[]];
      ghost var goal := ScanFrom(root, map[], old(tileFormat), walk);

      var i := 0;
      while i < |walk|
        invariant 0 <= i <= |walk|
        invariant dirPath == old(dirPath) && rootPath == old(dirPath) && fileTree == Some(walk) && rootName == Some(root)
        invariant root in models && models == old(models)[root := models[root]]
        invariant ScanFrom(root, models[root], tileFormat, walk[i..]) == goal
      {
        var step := walk[i];
        assert walk[i..][0] == step && walk[i..][1..] == walk[i + 1..];
        var model := Basename(step.dirPath);
        if model != root {
          var tokens := Split(model, '_');
          if |tokens| < 2 {
            return Some(MissingTileToken(model));
          }
          var size := Split(tokens[1], 'x');
          if |size| < 2 {
            return Some(MissingTileHeight(model));
          }
          var w;
          if size[0] == size[1] {
            w := SquareWeight;
          } else {
            w := RectangularWeight;
          }
          tileFormat := Some(w);
          var key := ScapeString(model);
          ghost var before := models;
          ScanModelDir(root, key, step, w);
          UpdateTwice(old(models), root, before[root], models[root]);
        }
        i := i + 1;
      }
      return None;
    }

    /** The inner loop of the scan: the model directory's entry starts
        empty, then each file writes its path under its kind and the weight
        under `"size"`. */
    method ScanModelDir(root: string, key: string, step: WalkStep, w: real)
      requires root in models
      modifies this`models
      ensures models == old(models)[root := old(models)[root][key := BuildEntry(step.dirPath, step.files, w)]]
    {
      ghost var all := models;
      ghost var catalog := models[root];
      var entry: Entry := map[];
      models := models[root := models[root][key := entry]];

      var j := 0;
      while j < |step.files|
        invariant 0 <= j <= |step.files|
        invariant entry == BuildEntry(step.dirPath, step.files[..j], w)
        invariant models == all[root := catalog[key := entry]]
      {
        var fname := step.files[j];
        var kind := Classify(fname);
        var path := StoredPath(step.dirPath, fname);
        ghost var prev := entry;
        entry := entry[PictureKey(kind) := PathValue(path)][SizeKey := SizeValue(w)];
        BuildEntryPrefix(step.dirPath, step.files, j, w);
        NestedOverwrite(all, root, catalog, key, prev, entry);
        models := models[root := models[root][key := entry]];
        j := j + 1;
      }
      assert step.files[..j] == step.files;
    }

    /** The list the renderer receives: every (key, entry) pair of the
        scanned root's catalog, once each, in ascending key order. By
        `RenderOrderDeterministic` it is the only such list. */
    method SortedModels() returns (items: seq<(string, Entry)>)
      requires rootName.Some? && rootName.value in models
      ensures ListsCatalog(items, models[rootName.value])
      ensures |items| == |models[rootName.value]|
    {
      var catalog := models[rootName.value];
      var left := catalog.Keys;
      items := [];
      while left != {}
        invariant left <= catalog.Keys
        invariant SortedByKey(items)
        invariant |items| + |left| == |catalog.Keys|
        invariant forall i :: 0 <= i < |items| ==>
                    items[i].0 in catalog && items[i].0 !in left && items[i].1 == catalog[items[i].0]
        invariant forall k :: k in catalog && k !in left ==> exists i :: 0 <= i < |items| && items[i].0 == k
        decreases |left|
      {
        var k :| k in left;
        var old_items := items;
        items := InsertByKey(items, (k, catalog[k]));
        left := left - {k};
        forall i | 0 <= i < |items|
          ensures items[i].0 in catalog && items[i].0 !in left && items[i].1 == catalog[items[i].0]
        {
          assert items[i] in items;
        }
        forall k' | k' in catalog && k' !in left
          ensures exists i :: 0 <= i < |items| && items[i].0 == k'
        {
          if k' == k {
            assert (k, catalog[k]) in items;
          } else {
            var i :| 0 <= i < |old_items| && old_items[i].0 == k';
            assert old_items[i] in items;
          }
        }
      }
    }
  }
}
