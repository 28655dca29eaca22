/**
 * The `uploads` directory as the server changes and reads it: `/upload`
 * files each incoming file into its year/month directory under a name that
 * overwrites nothing, and `/list` reads the directories back as a tree.
 */
module Uploads {
  import opened Wrappers
  import opened JsText
  import opened InvoiceMeta
  import opened StorageRules

  /** One file of a multipart upload: its original name and what the EXIF
      reader makes of its bytes. */
  datatype Incoming = Incoming(originalName: string, exif: Option<JsDate>)

  /** One element of the `saved` array of the answer. */
  datatype SavedFile = SavedFile(originalName: string, path: string, year: string, month: string)

  /** The names in a month directory, empty when the directory does not exist yet. */
  function MonthFiles(dirs: Tree, year: string, month: string): seq<string>
  {
    if year in dirs && month in dirs[year] then dirs[year][month] else []
  }

  /** The names in a directory listing, as a set. */
  function Names(files: seq<string>): (r: set<string>)
    ensures forall f :: f in r <==> f in files
  {
    if files == [] then {} else Names(files[..|files| - 1]) + {files[|files| - 1]}
  }

  /** What the server decides about one file before looking at the directory:
      the bucket of its date and its sanitised name. */
  datatype Placement = Placement(originalName: string, bucket: Bucket, name: string)

  /** Lines 53-68 of the upload loop for one file. */
  function PlacementOf(file: Incoming, client: Option<ClientDate>, now: JsDate): (p: Placement)
    requires DigitParts(client)
    ensures p.originalName == file.originalName && AllSafe(p.name)
  {
    Placement(file.originalName, BucketOf(FileDate(client, file.exif, now)), Sanitize(file.originalName))
  }

  /** The placements of the files of one request, in order. */
  function Plan(files: seq<Incoming>, client: Option<ClientDate>, now: JsDate): (ps: seq<Placement>)
    requires DigitParts(client)
    ensures |ps| == |files|
    ensures forall i :: 0 <= i < |files| ==> ps[i] == PlacementOf(files[i], client, now)
  {
    seq(|files|, i requires 0 <= i < |files| => PlacementOf(files[i], client, now))
  }

  /** The result of storing one file: the answer entry, the name it got and the
      directories afterwards. */
  datatype Stored = Stored(saved: SavedFile, name: string, dirs: Tree)

  /** One turn of the upload loop, once the placement is known: find a free
      name in the month directory and add the file to it. */
  function Place(dirs: Tree, p: Placement): (r: Stored)
    ensures r.saved == SavedFile(p.originalName, EntryPath(p.bucket.year, p.bucket.month, r.name), p.bucket.year, p.bucket.month)
    ensures r.name !in MonthFiles(dirs, p.bucket.year, p.bucket.month)
    ensures MonthFiles(r.dirs, p.bucket.year, p.bucket.month) == MonthFiles(dirs, p.bucket.year, p.bucket.month) + [r.name]
    ensures AllSafe(p.name) ==> AllSafe(r.name)
  {
    var current := MonthFiles(dirs, p.bucket.year, p.bucket.month);
    var filename := FreeName(p.name, Names(current));
    assert AllSafe(p.name) ==> AllSafe(filename) by {
      if AllSafe(p.name) {
        FreeNameSafe(p.name, Names(current));
      }
    }
    var months := if p.bucket.year in dirs then dirs[p.bucket.year] else map[];
    Stored(SavedFile(p.originalName, EntryPath(p.bucket.year, p.bucket.month, filename), p.bucket.year, p.bucket.month),
           filename, dirs[p.bucket.year := months[p.bucket.month := current + [filename]]])
  }

  /** The result of storing a batch of files. */
  datatype Batch = Batch(saved: seq<SavedFile>, names: seq<string>, dirs: Tree)

  /** The upload loop over the placements, in order. */
  function PlaceAll(dirs: Tree, ps: seq<Placement>): (r: Batch)
    ensures |r.saved| == |r.names| == |ps|
  {
    if ps == [] then Batch([], [], dirs)
    else
      var prev := PlaceAll(dirs, ps[..|ps| - 1]);
      var one := Place(prev.dirs, ps[|ps| - 1]);
      Batch(prev.saved + [one.saved], prev.names + [one.name], one.dirs)
  }

  /** Every month directory of `before` is still there, with its names as a
      prefix of what it holds in `after`. */
  predicate Extends(before: Tree, after: Tree)
  {
    forall y, m :: y in before && m in before[y] ==>
      y in after && m in after[y] && before[y][m] <= after[y][m]
  }

  /** No name appears twice in a month directory. */
  predicate Distinct(dirs: Tree)
  {
    forall y, m, i, j :: y in dirs && m in dirs[y] && 0 <= i < j < |dirs[y][m]| ==>
      dirs[y][m][i] != dirs[y][m][j]
  }

  /** Storing one file only appends: every month directory keeps its names
      as a prefix. */
  lemma PlacePrefix(dirs: Tree, p: Placement, y: string, m: string)
    ensures MonthFiles(dirs, y, m) <= MonthFiles(Place(dirs, p).dirs, y, m)
    ensures (y, m) != (p.bucket.year, p.bucket.month) ==> MonthFiles(Place(dirs, p).dirs, y, m) == MonthFiles(dirs, y, m)
  {
  }

  /** Storing one file removes no directory and no name. */
  lemma PlaceExtends(dirs: Tree, p: Placement)
    ensures Extends(dirs, Place(dirs, p).dirs)
  {
    var r := Place(dirs, p);
    forall y, m | y in dirs && m in dirs[y]
      ensures y in r.dirs && m in r.dirs[y] && dirs[y][m] <= r.dirs[y][m]
    {
      PlacePrefix(dirs, p, y, m);
      assert MonthFiles(dirs, y, m) == dirs[y][m];
    }
  }

  /** Storing one file keeps the names of every month directory distinct. */
  lemma PlaceDistinct(dirs: Tree, p: Placement)
    requires Distinct(dirs)
    ensures Distinct(Place(dirs, p).dirs)
  {
    var r := Place(dirs, p);
    var y0, m0 := p.bucket.year, p.bucket.month;
    forall y, m, i, j | y in r.dirs && m in r.dirs[y] && 0 <= i < j < |r.dirs[y][m]|
      ensures r.dirs[y][m][i] != r.dirs[y][m][j]
    {
      var s := r.dirs[y][m];
      assert s == MonthFiles(r.dirs, y, m);
      PlacePrefix(dirs, p, y, m);
      var before := MonthFiles(dirs, y, m);
      if (y, m) == (y0, m0) {
        assert s == before + [r.name];
        if j == |before| {
          assert s[i] in before;
        } else {
          assert s[i] == before[i] && s[j] == before[j];
        }
      } else {
        assert s == before && y in dirs && m in dirs[y];
      }
    }
  }

  lemma ExtendsTransitive(a: Tree, b: Tree, c: Tree)
    requires Extends(a, b) && Extends(b, c)
    ensures Extends(a, c)
  {
    forall y, m | y in a && m in a[y] ensures y in c && m in c[y] && a[y][m] <= c[y][m] {
      assert b[y][m] <= c[y][m];
    }
  }

  /** Storing a batch removes no directory and no name: nothing that was
      there is deleted or overwritten. */
  lemma {:induction false} PlaceAllExtends(dirs: Tree, ps: seq<Placement>)
    ensures Extends(dirs, PlaceAll(dirs, ps).dirs)
  {
    if ps != [] {
      var n := |ps| - 1;
      var prev := PlaceAll(dirs, ps[..n]);
      PlaceAllExtends(dirs, ps[..n]);
      PlaceExtends(prev.dirs, ps[n]);
      ExtendsTransitive(dirs, prev.dirs, Place(prev.dirs, ps[n]).dirs);
    }
  }

  /** Storing a batch keeps the names of every month directory distinct. */
  lemma {:induction false} PlaceAllDistinct(dirs: Tree, ps: seq<Placement>)
    requires Distinct(dirs)
    ensures Distinct(PlaceAll(dirs, ps).dirs)
  {
    if ps != [] {
      var n := |ps| - 1;
      PlaceAllDistinct(dirs, ps[..n]);
      PlaceDistinct(PlaceAll(dirs, ps[..n]).dirs, ps[n]);
    }
  }

  /** Storing a batch is storing all but its last file, then the last one. */
  lemma PlaceAllLast(dirs: Tree, ps: seq<Placement>)
    requires ps != []
    ensures var prev := PlaceAll(dirs, ps[..|ps| - 1]);
            var one := Place(prev.dirs, ps[|ps| - 1]);
            PlaceAll(dirs, ps) == Batch(prev.saved + [one.saved], prev.names + [one.name], one.dirs)
  {
  }

  /** The i-th file of a batch is reported under the bucket of its placement,
      with the path of the name it got, which is as safe as the sanitised name. */
  lemma {:induction false} PlaceAllSaved(dirs: Tree, ps: seq<Placement>, i: nat)
    requires i < |ps|
    ensures var r, b := PlaceAll(dirs, ps), ps[i].bucket;
            r.saved[i] == SavedFile(ps[i].originalName, EntryPath(b.year, b.month, r.names[i]), b.year, b.month)
            && (AllSafe(ps[i].name) ==> AllSafe(r.names[i]))
  {
    hide *;
    var n := |ps| - 1;
    var init := ps[..n];
    PlaceAllLast(dirs, ps);
    if i < n {
      PlaceAllSaved(dirs, init, i);
      assert init[i] == ps[i];
    }
  }

  /** The name the i-th file of a batch got is in its month directory afterwards. */
  lemma {:induction false} PlaceAllNameKept(dirs: Tree, ps: seq<Placement>, i: nat)
    requires i < |ps|
    ensures var b := ps[i].bucket;
            PlaceAll(dirs, ps).names[i] in MonthFiles(PlaceAll(dirs, ps).dirs, b.year, b.month)
  {
    hide *;
    var n := |ps| - 1;
    var init := ps[..n];
    var prev := PlaceAll(dirs, init);
    var one := Place(prev.dirs, ps[n]);
    PlaceAllLast(dirs, ps);
    var b := ps[i].bucket;
    if i < n {
      PlaceAllNameKept(dirs, init, i);
      assert init[i] == ps[i];
      PlacePrefix(prev.dirs, ps[n], b.year, b.month);
      assert prev.names[i] in MonthFiles(one.dirs, b.year, b.month);
    }
  }

  /** Two files of one batch filed in the same month directory get different
      names, so neither overwrites the other. */
  lemma {:induction false} PlaceAllNamesDiffer(dirs: Tree, ps: seq<Placement>, i: nat, j: nat)
    requires i < j < |ps| && ps[i].bucket == ps[j].bucket
    ensures PlaceAll(dirs, ps).names[i] != PlaceAll(dirs, ps).names[j]
  {
    hide *;
    var n := |ps| - 1;
    var init := ps[..n];
    var prev := PlaceAll(dirs, init);
    var one := Place(prev.dirs, ps[n]);
    PlaceAllLast(dirs, ps);
    assert init[i] == ps[i];
    if j < n {
      assert init[j] == ps[j];
      PlaceAllNamesDiffer(dirs, init, i, j);
    } else {
      PlaceAllNameKept(dirs, init, i);
      assert prev.names[i] in MonthFiles(prev.dirs, ps[n].bucket.year, ps[n].bucket.month);
    }
  }

  /** The upload of a request's files. */
  function StoreAll(dirs: Tree, files: seq<Incoming>, client: Option<ClientDate>, now: JsDate): Batch
    requires DigitParts(client)
  {
    PlaceAll(dirs, Plan(files, client, now))
  }

  /**
   * An upload keeps what was there, files the i-th file under the bucket of
   * its date with a `[A-Za-z0-9._-]` name, reports that file's path, and
   * gives two files that land in one month directory different names.
   */
  lemma UploadFilesEachFile(dirs: Tree, files: seq<Incoming>, client: Option<ClientDate>, now: JsDate)
    requires DigitParts(client)
    ensures var r := StoreAll(dirs, files, client, now);
            Extends(dirs, r.dirs)
            && (Distinct(dirs) ==> Distinct(r.dirs))
            && |r.saved| == |files|
            && forall i :: 0 <= i < |files| ==>
                 var b := BucketOf(FileDate(client, files[i].exif, now));
                 r.saved[i] == SavedFile(files[i].originalName, EntryPath(b.year, b.month, r.names[i]), b.year, b.month)
                 && AllSafe(r.names[i]) && r.names[i] in MonthFiles(r.dirs, b.year, b.month)
    ensures var r := StoreAll(dirs, files, client, now);
            forall i, j :: 0 <= i < j < |files| && r.saved[i].year == r.saved[j].year && r.saved[i].month == r.saved[j].month
              ==> r.names[i] != r.names[j]
  {
    hide Place, PlaceAll, FileDate, BucketOf, Sanitize, EntryPath;
    var ps := Plan(files, client, now);
    var r := PlaceAll(dirs, ps);
    PlaceAllExtends(dirs, ps);
    if Distinct(dirs) {
      PlaceAllDistinct(dirs, ps);
    }
    forall i | 0 <= i < |files|
      ensures var b := BucketOf(FileDate(client, files[i].exif, now));
              r.saved[i] == SavedFile(files[i].originalName, EntryPath(b.year, b.month, r.names[i]), b.year, b.month)
              && AllSafe(r.names[i]) && r.names[i] in MonthFiles(r.dirs, b.year, b.month)
    {
      PlaceAllSaved(dirs, ps, i);
      PlaceAllNameKept(dirs, ps, i);
    }
    forall i, j | 0 <= i < j < |files| && r.saved[i].year == r.saved[j].year && r.saved[i].month == r.saved[j].month
      ensures r.names[i] != r.names[j]
    {
      PlaceAllSaved(dirs, ps, i);
      PlaceAllSaved(dirs, ps, j);
      PlaceAllNamesDiffer(dirs, ps, i, j);
    }
  }

  /** A map with the keys and values of the months listed for year `y` is that listing. */
  lemma MonthsListed(dirs: Tree, y: string, qYear: string, qMonth: string, listed: map<string, seq<Entry>>)
    requires y in dirs
    requires forall m :: m in listed <==> m in dirs[y] && Shown(y, m, qYear, qMonth)
    requires forall m :: m in listed ==> listed[m] == Entries(y, m, dirs[y][m])
    ensures listed == MonthsShown(dirs, y, qYear, qMonth)
  {
    assert listed.Keys == MonthsShown(dirs, y, qYear, qMonth).Keys;
  }

  /** A map with the keys and values of the listed tree is that tree. */
  lemma TreeListed(dirs: Tree, qYear: string, qMonth: string, tree: map<string, map<string, seq<Entry>>>)
    requires forall y :: y in tree <==> y in dirs && YearKept(dirs, y, qYear, qMonth)
    requires forall y :: y in tree ==> y in dirs && tree[y] == MonthsShown(dirs, y, qYear, qMonth)
    ensures tree == ListSpec(dirs, qYear, qMonth)
  {
    assert tree.Keys == ListSpec(dirs, qYear, qMonth).Keys;
  }

  /** The uploads directory: year directories holding month directories holding files. */
  class UploadsDir {
    var dirs: Tree

    /** The directory as the server finds it at start-up. */
    constructor (initial: Tree)
      ensures dirs == initial
    {
      dirs := initial;
    }

    /**
     * `POST /upload`: `None` stands for the 400 answer to a request without
     * files; otherwise each file is filed in turn and the `saved` entries
     * come back in order.
     */
    method Upload(files: seq<Incoming>, invoiceDate: string, now: JsDate) returns (saved: Option<seq<SavedFile>>)
      requires DigitParts(ClientParts(invoiceDate))
      modifies this
      ensures files == [] ==> saved.None? && dirs == old(dirs)
      ensures files != [] ==> var r := StoreAll(old(dirs), files, ClientParts(invoiceDate), now);
                saved == Some(r.saved) && dirs == r.dirs
    {
      if files == [] {
        return None;
      }
      var client := ClientParts(invoiceDate);
      hide Before, StartsWith;
      ghost var plan := Plan(files, client, now);
      var out: seq<SavedFile> := [];
      ghost var names: seq<string> := [];
      for i := 0 to |files|
        invariant PlaceAll(old(dirs), plan[..i]) == Batch(out, names, dirs)
      {
        assert plan[..i + 1][..i] == plan[..i];
        PlaceAllLast(old(dirs), plan[..i + 1]);
        hide PlaceAll;
        var file := files[i];
        var date := FileDate(client, file.exif, now);
        var bucket := BucketOf(date);
        var current := MonthFiles(dirs, bucket.year, bucket.month);
        var name := Sanitize(file.originalName);
        assert plan[i] == Placement(file.originalName, bucket, name);
        var filename := UniqueName(name, Names(current));
        var months := if bucket.year in dirs then dirs[bucket.year] else map[];
        dirs := dirs[bucket.year := months[bucket.month := current + [filename]]];
        out := out + [SavedFile(file.originalName, EntryPath(bucket.year, bucket.month, filename), bucket.year, bucket.month)];
        names := names + [filename];
      }
      assert plan[..|files|] == plan;
      saved := Some(out);
    }

    /** `GET /list?year=<qYear>&month=<qMonth>`: the nested loops over the year
        and month directories, dropping a year left empty by the filter. */
    method List(qYear: string, qMonth: string) returns (tree: map<string, map<string, seq<Entry>>>)
      ensures tree == ListSpec(dirs, qYear, qMonth)
    {
      tree := map[];
      var years := dirs.Keys;
      while years != {}
        invariant years <= dirs.Keys
        invariant forall y :: y in tree <==> y in dirs && y !in years && YearKept(dirs, y, qYear, qMonth)
        invariant forall y :: y in tree ==> y in dirs && tree[y] == MonthsShown(dirs, y, qYear, qMonth)
        decreases years
      {
        var y :| y in years;
        var months := dirs[y].Keys;
        var listed: map<string, seq<Entry>> := map[];
        while months != {}
          invariant months <= dirs[y].Keys
          invariant forall m :: m in listed <==> m in dirs[y] && m !in months && Shown(y, m, qYear, qMonth)
          invariant forall m :: m in listed ==> listed[m] == Entries(y, m, dirs[y][m])
          decreases months
        {
          var m :| m in months;
          if !Filtered(qYear, qMonth) || (y == qYear && m == PadStart(qMonth, 2, '0')) {
            listed := listed[m := Entries(y, m, dirs[y][m])];
          }
          months := months - {m};
        }
        MonthsListed(dirs, y, qYear, qMonth, listed);
        tree := tree[y := listed];
        if qYear != [] && |tree[y]| == 0 {
          tree := tree - {y};
        }
        years := years - {y};
      }
      TreeListed(dirs, qYear, qMonth, tree);
    }
  }
}
