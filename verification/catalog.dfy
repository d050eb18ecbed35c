/** The rules the catalog scanner applies to one walk of the asset tree: how a
    model directory's name gives its tile weight and its catalog key, how a
    file's name gives its picture kind, what entry a directory produces, and
    the whole scan as a fold over the walk (`ScanFrom`), which the imperative
    `TurBoCB3K.Scan` is proved to compute. */
module Catalog {
  import opened Wrappers
  import opened Strings

  /** The size weights of a square and of a rectangular tile format. */
  const SquareWeight: real := 0.20
  const RectangularWeight: real := 0.30

  /** The two places where a badly named model directory makes the scan
      raise `IndexError`: no second `_`-token, or no `x` in it. */
  datatype ScanError =
    | MissingTileToken(model: string)
    | MissingTileHeight(model: string)

  datatype PictureKind = Montage | Model

  /** Keys of a model entry: the picture kind of a file (`None` for a file
      that is neither kind) or `"size"`. */
  datatype EntryKey = PictureKey(kind: Option<PictureKind>) | SizeKey

  datatype EntryValue = PathValue(path: string) | SizeValue(weight: real)

  type Entry = map<EntryKey, EntryValue>

  /** Sanitized model name -> entry: the catalog of one root. */
  type Models = map<string, Entry>

  /** One item of `os.walk`: a directory, its sub-directories, its files. */
  datatype WalkStep = WalkStep(dirPath: string, subdirs: seq<string>, files: seq<string>)

  /** What a scan leaves behind: the root's catalog, the last tile weight
      set, and the error that stopped it, if any. */
  datatype ScanResult = ScanResult(models: Models, tileFormat: Option<real>, error: Option<ScanError>)

  // ---------------------------------------------------------------------
  // Sanitisation

  /** `scape_string`: every `_` becomes `-`. */
  function ScapeString(s: string): (r: string)
    ensures |r| == |s| && '_' !in r
    ensures forall i :: 0 <= i < |s| && s[i] != '_' ==> r[i] == s[i]
    ensures forall i :: 0 <= i < |s| && s[i] == '_' ==> r[i] == '-'
  {
    ReplaceRemoves(s, '_', '-');
    Replace(s, '_', '-')
  }

  lemma ScapeStringIdempotent(s: string)
    ensures ScapeString(ScapeString(s)) == ScapeString(s)
  {
    ReplaceRemoves(s, '_', '-');
  }

  /** A name is left as it is exactly when it has no underscore. */
  lemma ScapeStringFixpoint(s: string)
    ensures ScapeString(s) == s <==> '_' !in s
  {
    ReplaceFixpoint(s, '_', '-');
  }

  /** Sanitisation is not injective: `a_b` and `a-b` share a key. */
  lemma ScapeStringCollides()
    ensures ScapeString("a_b") == ScapeString("a-b") == "a-b"
    ensures ScapeString("a_b_c") == "a-b-c"
  {
    assert ScapeString("a_b")[1] == '-';
    assert ScapeString("a_b_c")[1] == '-' && ScapeString("a_b_c")[3] == '-';
  }

  // ---------------------------------------------------------------------
  // File classification

  /** The picture kind of a file name: `M.png` wins over `.png`. Its
      meaning is stated by `ClassifyCases`, outside the function, so that
      proofs about entries do not carry the suffix reasoning along. */
  function Classify(fname: string): Option<PictureKind>
  {
    if EndsWith(fname, "M.png") then Some(Montage)
    else if EndsWith(fname, ".png") then Some(Model)
    else None
  }

  /** The three kinds partition the names by their suffix. */
  lemma ClassifyCases(fname: string)
    ensures Classify(fname) == Some(Montage) <==> EndsWith(fname, "M.png")
    ensures Classify(fname) == Some(Model) <==> EndsWith(fname, ".png") && !EndsWith(fname, "M.png")
    ensures Classify(fname) == None <==> !EndsWith(fname, ".png")
  {
    if EndsWith(fname, "M.png") {
      assert fname[|fname| - 4..] == fname[|fname| - 5..][1..];
    }
  }

  /** Built from a stem: `stemM.png` is a montage; `stem.png` is a model
      image unless the stem itself ends in `M`. */
  lemma ClassifyOfStem(stem: string)
    ensures Classify(stem + "M.png") == Some(Montage)
    ensures Classify(stem + ".png") == (if |stem| > 0 && stem[|stem| - 1] == 'M' then Some(Montage) else Some(Model))
  {
    var m := stem + "M.png";
    assert m[|m| - 5..] == "M.png";
    var p := stem + ".png";
    assert p[|p| - 4..] == ".png";
    if |stem| > 0 {
      assert p[|p| - 5..] == [stem[|stem| - 1]] + ".png";
    } else {
      assert |p| < 5;
    }
  }

  // ---------------------------------------------------------------------
  // Tile format

  /** The weight of a model directory name: its second `_`-token is split on
      `x`, and the first two pieces, compared as text, decide. */
  function TileWeight(model: string): (r: Result<real, ScanError>)
    ensures r.Success? ==> r.value == SquareWeight || r.value == RectangularWeight
    ensures r.Failure? ==> r.error.model == model
  {
    var tokens := Split(model, '_');
    if |tokens| < 2 then Failure(MissingTileToken(model))
    else
      var size := Split(tokens[1], 'x');
      if |size| < 2 then Failure(MissingTileHeight(model))
      else if size[0] == size[1] then Success(SquareWeight)
      else Success(RectangularWeight)
  }

  /** The error cases: no underscore at all, or no `x` in the second token. */
  lemma TileWeightErrors(model: string)
    ensures TileWeight(model) == Failure(MissingTileToken(model)) <==> '_' !in model
    ensures TileWeight(model) == Failure(MissingTileHeight(model)) <==>
              '_' in model && |Split(model, '_')| >= 2 && 'x' !in Split(model, '_')[1]
  {
    SplitHasSecond(model, '_');
    if '_' in model {
      SplitHasSecond(Split(model, '_')[1], 'x');
    }
  }

  /** For a name `<prefix>_<W>x<H>`, optionally followed by further
      `_`-tokens, the weight is square exactly when W and the first
      `x`-piece of H are the same text: whatever follows a second `x` is
      ignored. */
  lemma TileWeightOfName(prefix: string, w: string, h: string, tail: string)
    requires '_' !in prefix && '_' !in w && '_' !in h && 'x' !in w
    requires tail == "" || tail[0] == '_'
    ensures TileWeight(prefix + "_" + w + "x" + h + tail) ==
              Success(if w == Split(h, 'x')[0] then SquareWeight else RectangularWeight)
  {
    var tile := w + ['x'] + h;
    assert '_' !in tile by {
      assert forall c :: c in tile <==> c in w || c == 'x' || c in h;
    }
    assert prefix + "_" + w + "x" + h + tail == prefix + "_" + tile + tail by {
      assert prefix + "_" + w + "x" + h == prefix + "_" + (w + "x" + h);
    }
    SecondToken(prefix, tile, tail);
    SplitAtFirst(w, h, 'x');
  }

  /** In the documented convention `<prefix>_<W>x<H>` the weight is square
      exactly when W and H are the same text. */
  lemma TileWeightOfPlainName(prefix: string, w: string, h: string, tail: string)
    requires '_' !in prefix && '_' !in w && '_' !in h && 'x' !in w && 'x' !in h
    requires tail == "" || tail[0] == '_'
    ensures TileWeight(prefix + "_" + w + "x" + h + tail) ==
              Success(if w == h then SquareWeight else RectangularWeight)
  {
    TileWeightOfName(prefix, w, h, tail);
    SplitWithout(h, 'x');
  }

  /** The tile token of `<prefix>_<token><tail>` is `token` when neither the
      prefix nor the token holds an underscore and the tail is empty or
      starts a further token. */
  lemma SecondToken(prefix: string, token: string, tail: string)
    requires '_' !in prefix && '_' !in token
    requires tail == "" || tail[0] == '_'
    ensures |Split(prefix + "_" + token + tail, '_')| >= 2
    ensures Split(prefix + "_" + token + tail, '_')[1] == token
  {
    var name := prefix + "_" + token + tail;
    assert name == prefix + ['_'] + (token + tail);
    SplitAtFirst(prefix, token + tail, '_');
    if tail == "" {
      assert token + tail == token;
      SplitWithout(token, '_');
    } else {
      assert token + tail == token + ['_'] + tail[1..];
      SplitAtFirst(token, tail[1..], '_');
    }
  }

  /** Worked cases of the convention: the comparison is on text, so `04`
      and `4` make a rectangular tile; later tokens are ignored. */
  lemma TileWeightExamples()
    ensures TileWeight("foo_4x4") == Success(SquareWeight)
    ensures TileWeight("bar_4x6") == Success(RectangularWeight)
    ensures TileWeight("bar_04x4") == Success(RectangularWeight)
    ensures TileWeight("foo_4x4_v2") == Success(SquareWeight)
  {
    assert "foo_4x4" == "foo" + "_" + "4" + "x" + "4" + "";
    TileWeightOfPlainName("foo", "4", "4", "");
    assert "bar_4x6" == "bar" + "_" + "4" + "x" + "6" + "";
    TileWeightOfPlainName("bar", "4", "6", "");
    assert "bar_04x4" == "bar" + "_" + "04" + "x" + "4" + "";
    TileWeightOfPlainName("bar", "04", "4", "");
    assert "foo_4x4_v2" == "foo" + "_" + "4" + "x" + "4" + "_v2";
    TileWeightOfPlainName("foo", "4", "4", "_v2");
  }

  /** Worked cases of a tile token with two `x`: only the first two pieces
      are compared, and the scan does not fail. */
  lemma TileWeightExtraPieceExamples()
    ensures TileWeight("foo_4x4x9") == Success(SquareWeight)
    ensures TileWeight("foo_4x6x4") == Success(RectangularWeight)
  {
    assert "foo_4x4x9" == "foo" + "_" + "4" + "x" + "4x9" + "";
    SplitAtFirst("4", "9", 'x');
    assert "4" + ['x'] + "9" == "4x9";
    TileWeightOfName("foo", "4", "4x9", "");
    assert "foo_4x6x4" == "foo" + "_" + "4" + "x" + "6x4" + "";
    SplitAtFirst("6", "4", 'x');
    assert "6" + ['x'] + "4" == "6x4";
    TileWeightOfName("foo", "4", "6x4", "");
  }

  /** A name whose second `_`-token has no `x` fails, whatever follows it. */
  lemma TileWeightNoSeparator(prefix: string, token: string, tail: string)
    requires '_' !in prefix && '_' !in token && 'x' !in token
    requires tail == "" || tail[0] == '_'
    ensures TileWeight(prefix + "_" + token + tail) == Failure(MissingTileHeight(prefix + "_" + token + tail))
  {
    SecondToken(prefix, token, tail);
    SplitWithout(token, 'x');
  }

  /** Worked error cases: a name without `_` fails, and so does a name whose
      prefix holds an underscore, since the tile token is the second
      `_`-token from the left, not the last. */
  lemma TileWeightErrorExamples()
    ensures TileWeight("foo") == Failure(MissingTileToken("foo"))
    ensures TileWeight("my_model_4x4") == Failure(MissingTileHeight("my_model_4x4"))
  {
    TileWeightErrors("foo");
    assert "my_model_4x4" == "my" + "_" + "model" + "_4x4";
    TileWeightNoSeparator("my", "model", "_4x4");
  }

  // ---------------------------------------------------------------------
  // One model directory

  /** The path stored for a file: joined to its directory, with every
      backslash turned into `/` (see `StoredPathClean`). */
  function StoredPath(dir: string, fname: string): string
  {
    Replace(PathJoin(dir, fname), '\\', '/')
  }

  /** A stored path holds no backslash, and is the joined path with each
      backslash, and nothing else, turned into `/`. */
  lemma StoredPathClean(dir: string, fname: string)
    ensures '\\' !in StoredPath(dir, fname)
    ensures var j := PathJoin(dir, fname); var p := StoredPath(dir, fname);
            |p| == |j| && forall i :: 0 <= i < |j| && j[i] != '\\' ==> p[i] == j[i]
  {
    ReplaceRemoves(PathJoin(dir, fname), '\\', '/');
  }

  /** The entry a model directory gets from its files, taken in order: each
      file writes its path under its kind and the weight under `"size"`. */
  function BuildEntry(dir: string, files: seq<string>, weight: real): (e: Entry)
    ensures SizeKey in e <==> |files| > 0
    ensures |files| > 0 ==> e[SizeKey] == SizeValue(weight)
    decreases |files|
  {
    if |files| == 0 then map[]
    else
      var f := files[|files| - 1];
      BuildEntry(dir, files[..|files| - 1], weight)[PictureKey(Classify(f)) := PathValue(StoredPath(dir, f))][SizeKey := SizeValue(weight)]
  }

  /** Taking one more file of the directory updates the entry under that
      file's kind and under `"size"`: the step of the scan's inner loop. */
  lemma BuildEntryPrefix(dir: string, files: seq<string>, j: nat, weight: real)
    requires j < |files|
    ensures BuildEntry(dir, files[..j + 1], weight) ==
              BuildEntry(dir, files[..j], weight)[PictureKey(Classify(files[j])) := PathValue(StoredPath(dir, files[j]))][SizeKey := SizeValue(weight)]
  {
    assert files[..j + 1][..j] == files[..j];
  }

  /** The index of the last file of kind `k`, or -1 when there is none. */
  function LastOfKind(files: seq<string>, k: Option<PictureKind>): (i: int)
    ensures -1 <= i < |files|
    ensures i >= 0 ==> Classify(files[i]) == k
    ensures forall j :: i < j < |files| ==> Classify(files[j]) != k
    decreases |files|
  {
    if |files| == 0 then -1
    else if Classify(files[|files| - 1]) == k then |files| - 1
    else
      var i := LastOfKind(files[..|files| - 1], k);
      assert forall j :: i < j < |files| - 1 ==> files[..|files| - 1][j] == files[j];
      i
  }

  /** An entry has a key for a kind exactly when some file has that kind,
      and then it holds the path of the last such file. */
  lemma {:induction false} BuildEntryKinds(dir: string, files: seq<string>, weight: real, k: Option<PictureKind>)
    ensures PictureKey(k) in BuildEntry(dir, files, weight) <==> LastOfKind(files, k) >= 0
    ensures LastOfKind(files, k) >= 0 ==>
              BuildEntry(dir, files, weight)[PictureKey(k)] == PathValue(StoredPath(dir, files[LastOfKind(files, k)]))
    decreases |files|
  {
    if |files| > 0 {
      var n := |files| - 1;
      var init, f := files[..n], files[n];
      var prev := BuildEntry(dir, init, weight);
      var e := BuildEntry(dir, files, weight);
      var fkey := PictureKey(Classify(f));
      assert e == prev[fkey := PathValue(StoredPath(dir, f))][SizeKey := SizeValue(weight)];
      if Classify(f) == k {
        assert LastOfKind(files, k) == n;
      } else {
        var i := LastOfKind(init, k);
        assert LastOfKind(files, k) == i;
        assert PictureKey(k) != fkey && PictureKey(k) != SizeKey;
        BuildEntryKinds(dir, init, weight, k);
        if i >= 0 {
          assert init[i] == files[i];
        }
      }
    }
  }

  /** Every value in an entry is a path without backslashes, except the
      weight under `"size"`. */
  lemma {:induction false} BuildEntryValues(dir: string, files: seq<string>, weight: real)
    ensures forall key :: key in BuildEntry(dir, files, weight) && key != SizeKey ==>
              BuildEntry(dir, files, weight)[key].PathValue? && '\\' !in BuildEntry(dir, files, weight)[key].path
    decreases |files|
  {
    if |files| > 0 {
      var f := files[|files| - 1];
      BuildEntryValues(dir, files[..|files| - 1], weight);
      StoredPathClean(dir, f);
    }
  }

  // ---------------------------------------------------------------------
  // The whole scan

  function ModelName(step: WalkStep): string
  {
    Basename(step.dirPath)
  }

  /** The catalog key of a visited directory. */
  function ModelKey(step: WalkStep): string
  {
    ScapeString(ModelName(step))
  }

  /** A visited directory is a model directory unless its basename is the root's. */
  predicate IsModelDir(root: string, step: WalkStep)
  {
    ModelName(step) != root
  }

  /** Every model directory of the walk has a well-formed name. */
  predicate WellNamed(root: string, walk: seq<WalkStep>)
  {
    forall i :: 0 <= i < |walk| && IsModelDir(root, walk[i]) ==> TileWeight(ModelName(walk[i])).Success?
  }

  /** The scan of the remaining walk from the given catalog and tile weight:
      root-named directories are skipped; a model directory either stops the
      scan with its index error or replaces its key's entry and the weight. */
  function ScanFrom(root: string, models: Models, tile: Option<real>, walk: seq<WalkStep>): (r: ScanResult)
    ensures models.Keys <= r.models.Keys
    ensures r.tileFormat == tile || r.tileFormat == Some(SquareWeight) || r.tileFormat == Some(RectangularWeight)
    decreases |walk|
  {
    if |walk| == 0 then ScanResult(models, tile, None)
    else
      var step := walk[0];
      if !IsModelDir(root, step) then ScanFrom(root, models, tile, walk[1..])
      else
        match TileWeight(ModelName(step))
        case Failure(e) => ScanResult(models, tile, Some(e))
        case Success(w) =>
          ScanFrom(root, models[ModelKey(step) := BuildEntry(step.dirPath, step.files, w)], Some(w), walk[1..])
  }

  /** The scan succeeds exactly when every model directory is well named. */
  lemma {:induction false} ScanSucceedsIff(root: string, models: Models, tile: Option<real>, walk: seq<WalkStep>)
    ensures ScanFrom(root, models, tile, walk).error.None? <==> WellNamed(root, walk)
    decreases |walk|
  {
    if |walk| > 0 {
      var step := walk[0];
      var rest := walk[1..];
      assert forall i :: 0 <= i < |rest| ==> rest[i] == walk[i + 1];
      assert WellNamed(root, walk) <==>
        (IsModelDir(root, step) ==> TileWeight(ModelName(step)).Success?) && WellNamed(root, rest);
      if !IsModelDir(root, step) {
        ScanSucceedsIff(root, models, tile, rest);
      } else if TileWeight(ModelName(step)).Success? {
        var w := TileWeight(ModelName(step)).value;
        ScanSucceedsIff(root, models[ModelKey(step) := BuildEntry(step.dirPath, step.files, w)], Some(w), rest);
      }
    }
  }

  /** Scanning two walks one after the other is scanning their concatenation,
      unless the first one already failed. */
  lemma {:induction false} ScanAppend(root: string, models: Models, tile: Option<real>, w1: seq<WalkStep>, w2: seq<WalkStep>)
    ensures ScanFrom(root, models, tile, w1 + w2) ==
              (var r := ScanFrom(root, models, tile, w1);
               if r.error.Some? then r else ScanFrom(root, r.models, r.tileFormat, w2))
    decreases |w1|
  {
    if |w1| == 0 {
      assert w1 + w2 == w2;
    } else {
      var step := w1[0];
      assert (w1 + w2)[0] == step;
      assert (w1 + w2)[1..] == w1[1..] + w2;
      if !IsModelDir(root, step) {
        ScanAppend(root, models, tile, w1[1..], w2);
      } else if TileWeight(ModelName(step)).Success? {
        var w := TileWeight(ModelName(step)).value;
        ScanAppend(root, models[ModelKey(step) := BuildEntry(step.dirPath, step.files, w)], Some(w), w1[1..], w2);
      }
    }
  }

  /** A failing directory stops the scan: what is left is the catalog built
      from the directories before it, and its index error. */
  lemma ScanStopsAtFirstError(root: string, models: Models, tile: Option<real>, walk: seq<WalkStep>, i: nat)
    requires i < |walk| && IsModelDir(root, walk[i]) && TileWeight(ModelName(walk[i])).Failure?
    requires WellNamed(root, walk[..i])
    ensures var before := ScanFrom(root, models, tile, walk[..i]);
            ScanFrom(root, models, tile, walk) ==
              ScanResult(before.models, before.tileFormat, Some(TileWeight(ModelName(walk[i])).error))
  {
    assert walk == walk[..i] + walk[i..];
    ScanAppend(root, models, tile, walk[..i], walk[i..]);
    ScanSucceedsIff(root, models, tile, walk[..i]);
    assert walk[i..][0] == walk[i];
  }

  /** Keys that no model directory of the walk produces keep what they had. */
  lemma {:induction false} ScanLeavesOtherKeys(root: string, models: Models, tile: Option<real>, walk: seq<WalkStep>, k: string)
    requires forall i :: 0 <= i < |walk| && IsModelDir(root, walk[i]) ==> ModelKey(walk[i]) != k
    ensures var r := ScanFrom(root, models, tile, walk).models;
            (k in r <==> k in models) && (k in models ==> r[k] == models[k])
    decreases |walk|
  {
    if |walk| > 0 {
      var step := walk[0];
      var rest := walk[1..];
      assert forall i :: 0 <= i < |rest| ==> rest[i] == walk[i + 1];
      if !IsModelDir(root, step) {
        ScanLeavesOtherKeys(root, models, tile, rest, k);
      } else if TileWeight(ModelName(step)).Success? {
        var w := TileWeight(ModelName(step)).value;
        ScanLeavesOtherKeys(root, models[ModelKey(step) := BuildEntry(step.dirPath, step.files, w)], Some(w), rest, k);
      }
    }
  }

  /** After a successful scan the catalog's keys are the old ones and the
      keys of the model directories, and no others. */
  lemma {:induction false} ScanKeys(root: string, models: Models, tile: Option<real>, walk: seq<WalkStep>)
    requires WellNamed(root, walk)
    ensures forall k :: k in ScanFrom(root, models, tile, walk).models <==>
              k in models || exists i :: 0 <= i < |walk| && IsModelDir(root, walk[i]) && ModelKey(walk[i]) == k
    decreases |walk|
  {
    if |walk| > 0 {
      var step := walk[0];
      var rest := walk[1..];
      assert forall i :: 0 <= i < |rest| ==> rest[i] == walk[i + 1];
      var m' := models;
      if IsModelDir(root, step) {
        var w := TileWeight(ModelName(step)).value;
        m' := models[ModelKey(step) := BuildEntry(step.dirPath, step.files, w)];
        ScanKeys(root, m', Some(w), rest);
      } else {
        ScanKeys(root, m', tile, rest);
      }
      forall k | (exists i :: 0 <= i < |walk| && IsModelDir(root, walk[i]) && ModelKey(walk[i]) == k)
        ensures k in m' || exists i :: 0 <= i < |rest| && IsModelDir(root, rest[i]) && ModelKey(rest[i]) == k
      {
        var i :| 0 <= i < |walk| && IsModelDir(root, walk[i]) && ModelKey(walk[i]) == k;
        if i > 0 {
          assert rest[i - 1] == walk[i];
        }
      }
    }
  }

  /** A key's entry comes from the LAST model directory with that key: later
      directories overwrite earlier ones. */
  lemma {:induction false} ScanLastWins(root: string, models: Models, tile: Option<real>, walk: seq<WalkStep>, i: nat)
    requires WellNamed(root, walk)
    requires i < |walk| && IsModelDir(root, walk[i])
    requires forall j :: i < j < |walk| && IsModelDir(root, walk[j]) ==> ModelKey(walk[j]) != ModelKey(walk[i])
    ensures var r := ScanFrom(root, models, tile, walk).models;
            ModelKey(walk[i]) in r &&
            r[ModelKey(walk[i])] == BuildEntry(walk[i].dirPath, walk[i].files, TileWeight(ModelName(walk[i])).value)
    decreases |walk|
  {
    var step := walk[0];
    var rest := walk[1..];
    var m' := models;
    var t' := tile;
    if IsModelDir(root, step) {
      var w := TileWeight(ModelName(step)).value;
      m' := models[ModelKey(step) := BuildEntry(step.dirPath, step.files, w)];
      t' := Some(w);
    }
    assert ScanFrom(root, models, tile, walk) == ScanFrom(root, m', t', rest);
    if i == 0 {
      forall j | 0 <= j < |rest| && IsModelDir(root, rest[j]) ensures ModelKey(rest[j]) != ModelKey(step) {
        assert rest[j] == walk[j + 1];
      }
      ScanLeavesOtherKeys(root, m', t', rest, ModelKey(step));
    } else {
      assert rest[i - 1] == walk[i];
      forall j | 0 <= j < |rest| && IsModelDir(root, rest[j]) ensures TileWeight(ModelName(rest[j])).Success? {
        assert rest[j] == walk[j + 1];
      }
      forall j | i - 1 < j < |rest| && IsModelDir(root, rest[j]) ensures ModelKey(rest[j]) != ModelKey(walk[i]) {
        assert rest[j] == walk[j + 1];
      }
      ScanLastWins(root, m', t', rest, i - 1);
    }
  }

  /** The model directories of a walk, in walk order. */
  function ModelDirs(root: string, walk: seq<WalkStep>): (dirs: seq<WalkStep>)
    ensures forall s :: s in dirs <==> s in walk && IsModelDir(root, s)
    ensures |dirs| <= |walk|
    decreases |walk|
  {
    if |walk| == 0 then []
    else if IsModelDir(root, walk[0]) then [walk[0]] + ModelDirs(root, walk[1..])
    else ModelDirs(root, walk[1..])
  }

  /** Filtering keeps walk order: the model directories of two walks one
      after the other are those of the first, then those of the second. */
  lemma {:induction false} ModelDirsAppend(root: string, w1: seq<WalkStep>, w2: seq<WalkStep>)
    ensures ModelDirs(root, w1 + w2) == ModelDirs(root, w1) + ModelDirs(root, w2)
    decreases |w1|
  {
    if |w1| == 0 {
      assert w1 + w2 == w2;
    } else {
      assert (w1 + w2)[0] == w1[0];
      assert (w1 + w2)[1..] == w1[1..] + w2;
      ModelDirsAppend(root, w1[1..], w2);
    }
  }

  /** Directories named like the root contribute nothing: the scan of the
      walk equals the scan of its model directories alone. */
  lemma {:induction false} ScanIgnoresRootNamed(root: string, models: Models, tile: Option<real>, walk: seq<WalkStep>)
    ensures ScanFrom(root, models, tile, walk) == ScanFrom(root, models, tile, ModelDirs(root, walk))
    decreases |walk|
  {
    if |walk| > 0 {
      var step := walk[0];
      var rest := walk[1..];
      if !IsModelDir(root, step) {
        ScanIgnoresRootNamed(root, models, tile, rest);
      } else {
        var dirs := [step] + ModelDirs(root, rest);
        assert dirs[0] == step && dirs[1..] == ModelDirs(root, rest);
        if TileWeight(ModelName(step)).Success? {
          var w := TileWeight(ModelName(step)).value;
          ScanIgnoresRootNamed(root, models[ModelKey(step) := BuildEntry(step.dirPath, step.files, w)], Some(w), rest);
        }
      }
    }
  }

  /** The catalog and the error do not depend on the weight left over from
      an earlier scan. */
  lemma {:induction false} ScanIgnoresOldTile(root: string, models: Models, t1: Option<real>, t2: Option<real>, walk: seq<WalkStep>)
    ensures ScanFrom(root, models, t1, walk).models == ScanFrom(root, models, t2, walk).models
    ensures ScanFrom(root, models, t1, walk).error == ScanFrom(root, models, t2, walk).error
    decreases |walk|
  {
    if |walk| > 0 {
      var step := walk[0];
      if !IsModelDir(root, step) {
        ScanIgnoresOldTile(root, models, t1, t2, walk[1..]);
      } else if TileWeight(ModelName(step)).Success? {
        var w := TileWeight(ModelName(step)).value;
        var m' := models[ModelKey(step) := BuildEntry(step.dirPath, step.files, w)];
        assert ScanFrom(root, models, t1, walk) == ScanFrom(root, m', Some(w), walk[1..]);
        assert ScanFrom(root, models, t2, walk) == ScanFrom(root, m', Some(w), walk[1..]);
      }
    }
  }

  /** Scanning an unchanged tree again, starting from the fresh empty
      catalog the scan begins with, leaves every root's catalog as the first
      scan left it. */
  lemma RescanIsStable(all: map<string, Models>, root: string, t1: Option<real>, t2: Option<real>, walk: seq<WalkStep>)
    ensures var first := all[root := ScanFrom(root, map[], t1, walk).models];
            first[root := ScanFrom(root, map[], t2, walk).models] == first
  {
    ScanIgnoresOldTile(root, map[], t1, t2, walk);
  }

  // ---------------------------------------------------------------------
  // Ordering for the renderer

  /** Keys strictly ascending, so each key appears once. */
  predicate SortedByKey<V>(items: seq<(string, V)>)
  {
    forall i, j :: 0 <= i < j < |items| ==> LexLess(items[i].0, items[j].0)
  }

  /** Inserts an item with a new key at its place in a key-sorted list. */
  function InsertByKey<V(!new)>(items: seq<(string, V)>, item: (string, V)): (r: seq<(string, V)>)
    requires SortedByKey(items)
    requires forall i :: 0 <= i < |items| ==> items[i].0 != item.0
    ensures SortedByKey(r)
    ensures |r| == |items| + 1
    ensures forall x :: x in r <==> x in items || x == item
    decreases |items|
  {
    if |items| == 0 then [item]
    else if LexLess(item.0, items[0].0) then
      assert forall j :: 0 < j < |items| ==> LexLess(items[0].0, items[j].0);
      forall j | 0 < j < |items| ensures LexLess(item.0, items[j].0) {
        LexLessTransitive(item.0, items[0].0, items[j].0);
      }
      [item] + items
    else
      LexLessTotal(item.0, items[0].0);
      var tail := InsertByKey(items[1..], item);
      assert forall x :: x in items <==> x == items[0] || x in items[1..];
      forall j | 0 <= j < |tail| ensures LexLess(items[0].0, tail[j].0) {
        assert tail[j] in tail;
        if tail[j] != item {
          var k :| 0 <= k < |items[1..]| && items[1..][k] == tail[j];
          assert items[k + 1] == tail[j];
        }
      }
      [items[0]] + tail
  }

  /** Two key-sorted lists with the same items are the same list. */
  lemma {:induction false} SortedByKeyUnique<V>(a: seq<(string, V)>, b: seq<(string, V)>)
    requires SortedByKey(a) && SortedByKey(b)
    requires forall x :: x in a <==> x in b
    ensures a == b
    decreases |a|
  {
    if |a| > 0 {
      assert a[0] in b;
    }
    if |b| > 0 {
      assert b[0] in a;
    }
    if |a| > 0 && |b| > 0 {
      var j :| 0 <= j < |b| && b[j] == a[0];
      var i :| 0 <= i < |a| && a[i] == b[0];
      if i > 0 && j > 0 {
        LexLessTransitive(a[0].0, a[i].0, a[0].0);
        assert false;
      }
      assert a[0] == b[0];
      forall x ensures x in a[1..] <==> x in b[1..] {
        if x in a[1..] {
          var k :| 0 <= k < |a[1..]| && a[1..][k] == x;
          assert LexLess(a[0].0, x.0);
          assert !LexLess(x.0, x.0);
          assert x in b && x != b[0];
          var l :| 0 <= l < |b| && b[l] == x;
          assert b[1..][l - 1] == x;
        }
        if x in b[1..] {
          var k :| 0 <= k < |b[1..]| && b[1..][k] == x;
          assert LexLess(b[0].0, x.0);
          assert !LexLess(x.0, x.0);
          assert x in a && x != a[0];
          var l :| 0 <= l < |a| && a[l] == x;
          assert a[1..][l - 1] == x;
        }
      }
      SortedByKeyUnique(a[1..], b[1..]);
      assert a == [a[0]] + a[1..] && b == [b[0]] + b[1..];
    }
  }

  /** `items` lists the catalog: key-sorted, and its pairs are exactly the
      catalog's (key, entry) pairs. */
  ghost predicate ListsCatalog<V>(items: seq<(string, V)>, catalog: map<string, V>)
  {
    SortedByKey(items) &&
    (forall k :: k in catalog <==> exists i :: 0 <= i < |items| && items[i].0 == k) &&
    (forall i :: 0 <= i < |items| ==> items[i].0 in catalog && items[i].1 == catalog[items[i].0])
  }

  /** The list handed to the renderer is determined by the catalog alone:
      an unchanged catalog is always rendered in the same order. */
  lemma RenderOrderDeterministic<V>(a: seq<(string, V)>, b: seq<(string, V)>, catalog: map<string, V>)
    requires ListsCatalog(a, catalog) && ListsCatalog(b, catalog)
    ensures a == b
  {
    forall x ensures x in a ==> x in b {
      if x in a {
        var i :| 0 <= i < |a| && a[i] == x;
        var j :| 0 <= j < |b| && b[j].0 == x.0;
      }
    }
    forall x ensures x in b ==> x in a {
      if x in b {
        var i :| 0 <= i < |b| && b[i] == x;
        var j :| 0 <= j < |a| && a[j].0 == x.0;
      }
    }
    SortedByKeyUnique(a, b);
  }
}
