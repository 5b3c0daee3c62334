/** The editor window's bookkeeping: the three maps it keeps while a
    folder is open (`species_photo_map`, `bird_name_map`,
    `bird_info_map`), how loading a folder fills them, how renaming a
    group re-parents its photos, the live preview of the new file name
    and the sorted species list. Widgets, threads, thumbnails and dialogs
    are not modelled. */
module Editor {
  import opened Common
  import opened OrderedDict
  import opened Sorting
  import opened Sanitize
  import opened Tokenizer
  import opened Records
  import opened Wiki
  import opened Resolve
  import opened Thumbnailing

  // =====================================================================
  // Loading a folder
  // =====================================================================

  /** The extensions `load_photos_thread` accepts, compared after `lower()`. */
  const ImageExtensions: set<string> := {".jpg", ".jpeg", ".png", ".tif", ".tiff", ".bmp", ".gif"}

  predicate IsImage(f: string)
  {
    Lower(Splitext(f).1) in ImageExtensions
  }

  /** `[f for f in os.listdir(folder) if splitext(f)[1].lower() in image_extensions]` */
  function ImageFiles(listing: seq<string>): (files: seq<string>)
    ensures |files| <= |listing|
    ensures forall f :: f in files <==> f in listing && IsImage(f)
  {
    if listing == [] then []
    else
      var init := listing[..|listing| - 1];
      assert listing == init + [listing[|listing| - 1]];
      ImageFiles(init) + (if IsImage(listing[|listing| - 1]) then [listing[|listing| - 1]] else [])
  }

  lemma InSnoc<T>(s: seq<T>)
    requires s != []
    ensures forall x :: x in s <==> x in s[..|s| - 1] || x == s[|s| - 1]
  {
    assert s == s[..|s| - 1] + [s[|s| - 1]];
  }

  /** A directory listing names each file once, and so does its filter. */
  lemma {:induction false} ImageFilesDistinct(listing: seq<string>)
    requires forall i, j :: 0 <= i < j < |listing| ==> listing[i] != listing[j]
    ensures var files := ImageFiles(listing);
            forall i, j :: 0 <= i < j < |files| ==> files[i] != files[j]
  {
    if listing != [] {
      var init := listing[..|listing| - 1];
      ImageFilesDistinct(init);
      assert listing[|listing| - 1] !in init;
      assert listing[|listing| - 1] !in ImageFiles(init);
    }
  }

  /** `guessed_names[0] if guessed_names else "미분류"` */
  function InitialName(filename: string): (name: string)
    ensures ExtractKoreanBirdNames(filename) == [] ==> name == Unclassified
    ensures ExtractKoreanBirdNames(filename) != [] ==> name == ExtractKoreanBirdNames(filename)[0]
  {
    var guessed := ExtractKoreanBirdNames(filename);
    if guessed != [] then guessed[0] else Unclassified
  }

  /** `dt = None; try: dt = get_photo_datetime(img) except Exception: pass`:
      a failed timestamp parse is swallowed and leaves no date. */
  function LoadedDateTime(exif: Option<map<int, string>>, parse: string -> Option<DateTime>): (dt: Option<DateTime>)
    ensures dt.Some? <==> PhotoDateTime(exif, parse).Taken?
    ensures dt.Some? ==> PhotoDateTime(exif, parse) == Taken(dt.value)
  {
    match PhotoDateTime(exif, parse)
    case Taken(d) => Some(d)
    case _ => None
  }

  /** The date loading records for each file; `exif` stands for opening
      the image and reading its EXIF block (`None` when either fails). */
  function FileDateTime(exif: string -> Option<map<int, string>>, parse: string -> Option<DateTime>): string -> Option<DateTime>
  {
    f => LoadedDateTime(exif(f), parse)
  }

  /** `resolve_bird_info(name, csv_db, wiki)` as a function of the name. */
  function Resolver(csv: Option<Table>, wiki: Option<WikiClient>, patterns: Patterns): string -> BirdInfo
  {
    n => ResolveSpec(n, csv, wiki, patterns)
  }

  // The load is described for any naming of files (`nameOf`, which the
  // editor takes to be InitialName), any dating of files (`dateOf`) and
  // any resolver (`resolve`).

  /** The photo records of the loaded files, in listing order. */
  function Photos(files: seq<string>, dateOf: string -> Option<DateTime>): (ps: seq<Photo>)
    ensures |ps| == |files|
    ensures forall i :: 0 <= i < |files| ==> ps[i] == Photo(files[i], dateOf(files[i]))
    ensures forall p :: p in ps ==> p.originalFilename in files
  {
    if files == [] then []
    else Photos(files[..|files| - 1], dateOf) + [Photo(files[|files| - 1], dateOf(files[|files| - 1]))]
  }

  /** The group a photo is filed under. */
  function GroupOf(nameOf: string -> string): Photo -> string
  {
    (p: Photo) => nameOf(p.originalFilename)
  }

  /** `species_photo_map` after loading `files`. */
  function LoadedGroups(files: seq<string>, nameOf: string -> string, dateOf: string -> Option<DateTime>): (d: Dict<string, seq<Photo>>)
    ensures d.Valid()
  {
    GroupBy(Photos(files, dateOf), GroupOf(nameOf))
  }

  /** `bird_name_map` after loading `files`. */
  function LoadedNames(files: seq<string>, nameOf: string -> string): (d: Dict<string, string>)
    ensures d.Valid()
  {
    if files == [] then Empty()
    else Put(LoadedNames(files[..|files| - 1], nameOf), files[|files| - 1], nameOf(files[|files| - 1]))
  }

  /** `bird_info_map` after loading `files`: a name is resolved the first
      time a file of that group is met, and never again. */
  function LoadedInfos(files: seq<string>, nameOf: string -> string, resolve: string -> BirdInfo): map<string, BirdInfo>
  {
    if files == [] then map[]
    else
      var m := LoadedInfos(files[..|files| - 1], nameOf, resolve);
      var name := nameOf(files[|files| - 1]);
      if name in m then m else m[name := resolve(name)]
  }

  /** How many times loading `files` calls the resolver. */
  function ResolveCalls(files: seq<string>, nameOf: string -> string, resolve: string -> BirdInfo): nat
  {
    if files == [] then 0
    else
      var init := files[..|files| - 1];
      ResolveCalls(init, nameOf, resolve) + (if nameOf(files[|files| - 1]) in LoadedInfos(init, nameOf, resolve) then 0 else 1)
  }

  /** The names the loaded files are grouped under. */
  function NamesOf(files: seq<string>, nameOf: string -> string): set<string>
  {
    set i | 0 <= i < |files| :: nameOf(files[i])
  }

  lemma NamesOfSnoc(files: seq<string>, nameOf: string -> string)
    requires files != []
    ensures NamesOf(files, nameOf) == NamesOf(files[..|files| - 1], nameOf) + {nameOf(files[|files| - 1])}
  {
    var init := files[..|files| - 1];
    forall n | n in NamesOf(files, nameOf) ensures n in NamesOf(init, nameOf) + {nameOf(files[|files| - 1])} {
      var i :| 0 <= i < |files| && nameOf(files[i]) == n;
      if i < |init| { assert init[i] == files[i]; }
    }
    forall n | n in NamesOf(init, nameOf) ensures n in NamesOf(files, nameOf) {
      var i :| 0 <= i < |init| && nameOf(init[i]) == n;
      assert files[i] == init[i];
    }
  }

  /** The group keys of a load are the names of the loaded files. */
  lemma LoadedGroupKeys(files: seq<string>, nameOf: string -> string, dateOf: string -> Option<DateTime>)
    ensures LoadedGroups(files, nameOf, dateOf).items.Keys == NamesOf(files, nameOf)
  {
    var ps := Photos(files, dateOf);
    GroupByKeys(ps, GroupOf(nameOf));
    forall n | n in KeySet(ps, GroupOf(nameOf)) ensures n in NamesOf(files, nameOf) {
      var i :| 0 <= i < |ps| && GroupOf(nameOf)(ps[i]) == n;
    }
    forall n | n in NamesOf(files, nameOf) ensures n in KeySet(ps, GroupOf(nameOf)) {
      var i :| 0 <= i < |files| && nameOf(files[i]) == n;
      assert GroupOf(nameOf)(ps[i]) == n;
    }
  }

  /** Loading groups the files into a partition: every loaded file's photo
      sits in the group of its name, a group holds only photos of its own
      name, no group is empty, and the groups together hold one photo per
      loaded file. */
  lemma LoadedGroupsPartition(files: seq<string>, nameOf: string -> string, dateOf: string -> Option<DateTime>)
    ensures var d := LoadedGroups(files, nameOf, dateOf);
            && d.items.Keys == NamesOf(files, nameOf)
            && (forall i :: 0 <= i < |files| ==> Photo(files[i], dateOf(files[i])) in d.items[nameOf(files[i])])
            && (forall k :: k in d.items ==> d.items[k] != [])
            && (forall k, p :: k in d.items && p in d.items[k] ==> nameOf(p.originalFilename) == k && p.originalFilename in files)
            && TotalLength(d) == |files|
  {
    var ps := Photos(files, dateOf);
    LoadedGroupKeys(files, nameOf, dateOf);
    GroupByPartition(ps, GroupOf(nameOf));
    GroupByTotal(ps, GroupOf(nameOf));
    LoadedGroupsHome(files, nameOf, dateOf);
    LoadedGroupsOwn(files, nameOf, dateOf);
  }

  lemma LoadedGroupsHome(files: seq<string>, nameOf: string -> string, dateOf: string -> Option<DateTime>)
    ensures var d := LoadedGroups(files, nameOf, dateOf);
            forall i :: 0 <= i < |files| ==> nameOf(files[i]) in d.items && Photo(files[i], dateOf(files[i])) in d.items[nameOf(files[i])]
  {
    var ps := Photos(files, dateOf);
    var d := LoadedGroups(files, nameOf, dateOf);
    LoadedGroupKeys(files, nameOf, dateOf);
    GroupByPartition(ps, GroupOf(nameOf));
    forall i | 0 <= i < |files| ensures nameOf(files[i]) in d.items && Photo(files[i], dateOf(files[i])) in d.items[nameOf(files[i])] {
      assert nameOf(files[i]) in NamesOf(files, nameOf);
      assert ps[i] in ps && GroupOf(nameOf)(ps[i]) == nameOf(files[i]);
    }
  }

  lemma LoadedGroupsOwn(files: seq<string>, nameOf: string -> string, dateOf: string -> Option<DateTime>)
    ensures var d := LoadedGroups(files, nameOf, dateOf);
            forall k, p :: k in d.items && p in d.items[k] ==> nameOf(p.originalFilename) == k && p.originalFilename in files
  {
    var ps := Photos(files, dateOf);
    var d := LoadedGroups(files, nameOf, dateOf);
    GroupByPartition(ps, GroupOf(nameOf));
    forall k, p | k in d.items && p in d.items[k] ensures nameOf(p.originalFilename) == k && p.originalFilename in files {
      assert p in ps && GroupOf(nameOf)(p) == k;
    }
  }

  /** After loading, `bird_name_map` maps exactly the loaded files, each to
      its name. */
  lemma {:induction false} LoadedNamesMeaning(files: seq<string>, nameOf: string -> string)
    ensures var d := LoadedNames(files, nameOf);
            && (forall f :: f in d.items <==> f in files)
            && (forall f :: f in d.items ==> d.items[f] == nameOf(f))
  {
    if files != [] {
      var init := files[..|files| - 1];
      InSnoc(files);
      LoadedNamesMeaning(init, nameOf);
    }
  }

  /** For a duplicate-free listing the map's keys are the files in listing order. */
  lemma {:induction false} LoadedNamesOrder(files: seq<string>, nameOf: string -> string)
    requires forall i, j :: 0 <= i < j < |files| ==> files[i] != files[j]
    ensures LoadedNames(files, nameOf).keys == files
  {
    if files != [] {
      var init := files[..|files| - 1];
      var last := files[|files| - 1];
      assert files == init + [last];
      LoadedNamesOrder(init, nameOf);
      LoadedNamesMeaning(init, nameOf);
      assert last !in init;
    }
  }

  /** After loading, `bird_info_map` holds one resolved record per group
      name and nothing else. */
  lemma {:induction false} LoadedInfosMeaning(files: seq<string>, nameOf: string -> string, resolve: string -> BirdInfo)
    ensures var m := LoadedInfos(files, nameOf, resolve);
            && m.Keys == NamesOf(files, nameOf)
            && (forall n :: n in m ==> m[n] == resolve(n))
  {
    if files != [] {
      LoadedInfosMeaning(files[..|files| - 1], nameOf, resolve);
      NamesOfSnoc(files, nameOf);
    }
  }

  /** The cache is filled at most once per name: loading calls the
      resolver exactly once for each distinct group name, so never more
      often than there are files. */
  lemma {:induction false} ResolveCallsOncePerName(files: seq<string>, nameOf: string -> string, resolve: string -> BirdInfo)
    ensures ResolveCalls(files, nameOf, resolve) == |NamesOf(files, nameOf)| <= |files|
  {
    if files != [] {
      var init := files[..|files| - 1];
      var name := nameOf(files[|files| - 1]);
      ResolveCallsOncePerName(init, nameOf, resolve);
      LoadedInfosMeaning(init, nameOf, resolve);
      NamesOfSnoc(files, nameOf);
      var before := NamesOf(init, nameOf);
      if name in before {
        assert before + {name} == before;
      } else {
        assert |before + {name}| == |before| + 1;
      }
    }
  }

  // =====================================================================
  // Agreement of the name map with the groups
  // =====================================================================

  /** Each grouped photo's file maps to its group. */
  ghost predicate Tagged(groups: Dict<string, seq<Photo>>, names: Dict<string, string>)
  {
    forall k, p :: k in groups.items && p in groups.items[k] ==>
      p.originalFilename in names.items && names.items[p.originalFilename] == k
  }

  /** Each mapped file has a photo in the group it maps to. */
  ghost predicate Grouped(groups: Dict<string, seq<Photo>>, names: Dict<string, string>)
  {
    forall f :: f in names.items ==>
      names.items[f] in groups.items && exists p :: p in groups.items[names.items[f]] && p.originalFilename == f
  }

  /** `bird_name_map` and `species_photo_map` agree. */
  ghost predicate Coherent(groups: Dict<string, seq<Photo>>, names: Dict<string, string>)
  {
    Tagged(groups, names) && Grouped(groups, names)
  }

  /** Loading leaves the two maps in agreement. */
  lemma LoadedCoherent(files: seq<string>, nameOf: string -> string, dateOf: string -> Option<DateTime>)
    ensures Coherent(LoadedGroups(files, nameOf, dateOf), LoadedNames(files, nameOf))
  {
    LoadedTagged(files, nameOf, dateOf);
    LoadedGrouped(files, nameOf, dateOf);
  }

  lemma LoadedTagged(files: seq<string>, nameOf: string -> string, dateOf: string -> Option<DateTime>)
    ensures Tagged(LoadedGroups(files, nameOf, dateOf), LoadedNames(files, nameOf))
  {
    LoadedGroupsOwn(files, nameOf, dateOf);
    LoadedNamesMeaning(files, nameOf);
  }

  lemma LoadedGrouped(files: seq<string>, nameOf: string -> string, dateOf: string -> Option<DateTime>)
    ensures Grouped(LoadedGroups(files, nameOf, dateOf), LoadedNames(files, nameOf))
  {
    var d := LoadedGroups(files, nameOf, dateOf);
    var names := LoadedNames(files, nameOf);
    LoadedGroupsHome(files, nameOf, dateOf);
    LoadedNamesMeaning(files, nameOf);
    forall f | f in names.items
      ensures names.items[f] in d.items && exists p :: p in d.items[names.items[f]] && p.originalFilename == f
    {
      var i :| 0 <= i < |files| && files[i] == f;
      assert Photo(files[i], dateOf(files[i])) in d.items[nameOf(files[i])];
    }
  }

  /** The species named in the save summary:
      `{name for name in bird_name_map.values() if name != "미분류"}`. */
  function UniqueBirdNames(names: Dict<string, string>): set<string>
  {
    set f | f in names.items && names.items[f] != Unclassified :: names.items[f]
  }

  /** While the maps agree, the species count of the summary is the number
      of non-empty groups other than "미분류". */
  lemma UniqueBirdNamesAreGroups(groups: Dict<string, seq<Photo>>, names: Dict<string, string>)
    requires Coherent(groups, names)
    ensures UniqueBirdNames(names) == (set k | k in groups.items && groups.items[k] != []) - {Unclassified}
  {
    forall k | k in groups.items && groups.items[k] != [] && k != Unclassified
      ensures k in UniqueBirdNames(names)
    {
      var p := groups.items[k][0];
      assert p in groups.items[k];
      assert p.originalFilename in names.items && names.items[p.originalFilename] == k;
    }
  }

  /** After loading, the count is over the loaded groups other than "미분류". */
  lemma LoadedUniqueBirdNames(files: seq<string>, nameOf: string -> string, dateOf: string -> Option<DateTime>)
    ensures UniqueBirdNames(LoadedNames(files, nameOf)) == LoadedGroups(files, nameOf, dateOf).items.Keys - {Unclassified}
  {
    LoadedCoherent(files, nameOf, dateOf);
    LoadedGroupsPartition(files, nameOf, dateOf);
    UniqueBirdNamesAreGroups(LoadedGroups(files, nameOf, dateOf), LoadedNames(files, nameOf));
  }

  // =====================================================================
  // Renaming a group
  // =====================================================================

  /** The files of a group. */
  function FilesOf(photos: seq<Photo>): set<string>
  {
    set j | 0 <= j < |photos| :: photos[j].originalFilename
  }

  /** `for photo_info in photo_list: bird_name_map[photo_info['original_filename']] = new` */
  function Retag(names: Dict<string, string>, photos: seq<Photo>, newName: string): (r: Dict<string, string>)
    requires names.Valid()
    ensures r.Valid()
  {
    if photos == [] then names
    else Put(Retag(names, photos[..|photos| - 1], newName), photos[|photos| - 1].originalFilename, newName)
  }

  /** Retagging maps every file of the group to the new name and leaves
      every other entry as it was. */
  lemma {:induction false} RetagMeaning(names: Dict<string, string>, photos: seq<Photo>, newName: string)
    requires names.Valid()
    ensures var r := Retag(names, photos, newName);
            && r.items.Keys == names.items.Keys + FilesOf(photos)
            && (forall f :: f in r.items ==> r.items[f] == if f in FilesOf(photos) then newName else names.items[f])
  {
    if photos != [] {
      FilesOfSnoc(photos);
      RetagMeaning(names, photos[..|photos| - 1], newName);
    }
  }

  lemma FilesOfSnoc(photos: seq<Photo>)
    requires photos != []
    ensures FilesOf(photos) == FilesOf(photos[..|photos| - 1]) + {photos[|photos| - 1].originalFilename}
  {
    var init := photos[..|photos| - 1];
    forall f | f in FilesOf(photos) ensures f in FilesOf(init) + {photos[|photos| - 1].originalFilename} {
      var j :| 0 <= j < |photos| && photos[j].originalFilename == f;
      if j < |init| { assert init[j] == photos[j]; }
    }
    forall f | f in FilesOf(init) ensures f in FilesOf(photos) {
      var j :| 0 <= j < |init| && init[j].originalFilename == f;
      assert photos[j] == init[j];
    }
  }

  /** The groups after `update_group_name(old, new)` has run to its end:
      the new group gets the old group's photos after its own (or is
      created with them), then the old key is deleted. When the old group
      does not exist the source's `del` raises `KeyError` after the new
      key has been added; the model keeps that state. */
  function RenameGroup(groups: Dict<string, seq<Photo>>, oldName: string, newName: string): (r: Dict<string, seq<Photo>>)
    requires groups.Valid()
    ensures r.Valid()
  {
    var moved := Put(groups, newName, Get(groups, newName, []) + Get(groups, oldName, []));
    if oldName in groups.items then Remove(moved, oldName) else moved
  }

  /** An accepted rename of an existing group: the new group is its previous
      list followed by the old group's photos, the old key is gone, every
      other group is untouched. */
  lemma RenameGroupMoves(groups: Dict<string, seq<Photo>>, oldName: string, newName: string)
    requires groups.Valid() && oldName != newName && oldName in groups.items
    ensures var r := RenameGroup(groups, oldName, newName);
            && oldName !in r.items
            && newName in r.items && r.items[newName] == Get(groups, newName, []) + groups.items[oldName]
            && (forall k :: k != oldName && k != newName ==> (k in r.items <==> k in groups.items))
            && (forall k :: k in r.items && k != newName ==> r.items[k] == groups.items[k])
  {
  }

  /** No photo is lost or duplicated by an accepted rename. */
  lemma RenameGroupTotal(groups: Dict<string, seq<Photo>>, oldName: string, newName: string)
    requires groups.Valid() && oldName != newName && oldName in groups.items
    ensures TotalLength(RenameGroup(groups, oldName, newName)) == TotalLength(groups)
  {
    var list := groups.items[oldName];
    var moved := Put(groups, newName, Get(groups, newName, []) + list);
    PutTotal(groups, newName, Get(groups, newName, []) + list);
    RemoveTotal(moved, oldName);
  }

  /** A rename from a missing group moves nothing; it only leaves the new
      key in place, with an empty list if it was not there before. */
  lemma RenameGroupMissing(groups: Dict<string, seq<Photo>>, oldName: string, newName: string)
    requires groups.Valid() && oldName !in groups.items
    ensures RenameGroup(groups, oldName, newName).items == groups.items[newName := Get(groups, newName, [])]
    ensures TotalLength(RenameGroup(groups, oldName, newName)) == TotalLength(groups)
  {
    assert Get(groups, newName, []) + Get(groups, oldName, []) == Get(groups, newName, []);
    PutTotal(groups, newName, Get(groups, newName, []));
  }

  /** Renaming an existing group keeps every grouped photo tagged with its group. */
  lemma RenameKeepsTagged(groups: Dict<string, seq<Photo>>, names: Dict<string, string>, oldName: string, newName: string)
    requires groups.Valid() && names.Valid() && oldName != newName && oldName in groups.items
    requires Tagged(groups, names)
    ensures Tagged(RenameGroup(groups, oldName, newName), Retag(names, groups.items[oldName], newName))
  {
    var moving := groups.items[oldName];
    var g := RenameGroup(groups, oldName, newName);
    var n := Retag(names, moving, newName);
    RetagMeaning(names, moving, newName);
    RenameGroupMoves(groups, oldName, newName);
    forall k, p | k in g.items && p in g.items[k]
      ensures p.originalFilename in n.items && n.items[p.originalFilename] == k
    {
      var f := p.originalFilename;
      if f in FilesOf(moving) {
        var j :| 0 <= j < |moving| && moving[j].originalFilename == f;
        assert moving[j] in groups.items[oldName];
        if k == newName && p !in moving {
          assert p in Get(groups, newName, []);
        }
      } else if k == newName {
        assert p in groups.items[newName];
      } else {
        assert p in groups.items[k];
      }
    }
  }

  /** Renaming an existing group keeps every mapped file in the group it maps to. */
  lemma RenameKeepsGrouped(groups: Dict<string, seq<Photo>>, names: Dict<string, string>, oldName: string, newName: string)
    requires groups.Valid() && names.Valid() && oldName != newName && oldName in groups.items
    requires Grouped(groups, names)
    ensures Grouped(RenameGroup(groups, oldName, newName), Retag(names, groups.items[oldName], newName))
  {
    var moving := groups.items[oldName];
    var g := RenameGroup(groups, oldName, newName);
    var n := Retag(names, moving, newName);
    RetagMeaning(names, moving, newName);
    RenameGroupMoves(groups, oldName, newName);
    forall f | f in n.items
      ensures n.items[f] in g.items && exists p :: p in g.items[n.items[f]] && p.originalFilename == f
    {
      if f in FilesOf(moving) {
        var j :| 0 <= j < |moving| && moving[j].originalFilename == f;
        assert moving[j] in g.items[newName];
      } else {
        var p :| p in groups.items[names.items[f]] && p.originalFilename == f;
        if names.items[f] == newName {
          assert p in g.items[newName];
        }
      }
    }
  }

  /** A rename keeps the two maps in agreement. */
  lemma RenameKeepsCoherent(groups: Dict<string, seq<Photo>>, names: Dict<string, string>, oldName: string, newName: string)
    requires groups.Valid() && names.Valid() && oldName != newName
    requires Coherent(groups, names)
    ensures Coherent(RenameGroup(groups, oldName, newName), Retag(names, Get(groups, oldName, []), newName))
  {
    if oldName in groups.items {
      RenameKeepsTagged(groups, names, oldName, newName);
      RenameKeepsGrouped(groups, names, oldName, newName);
    } else {
      RenameGroupMissing(groups, oldName, newName);
    }
  }

  /** How `update_group_name` ends: refused with a warning, done, or raising
      `KeyError` at the final `del` because the old group does not exist. */
  datatype RenameOutcome = Rejected | Renamed | OldGroupMissing

  // =====================================================================
  // Live preview of a new file name
  // =====================================================================

  const EnterNamePrompt := "이름을 입력하세요"
  const EnglishNameColumn := "영명"

  /** The English name the preview uses: the "영명" cell of the first row
      whose "국명" is the typed name exactly (no stripping), or "" without
      a table, for an empty name, or without a match. */
  function PreviewEnglishName(csv: Option<Table>, newBirdName: string): (eng: string)
    ensures csv.None? || newBirdName == "" ==> eng == ""
    ensures csv.Some? && (forall j :: 0 <= j < |csv.value.rows| ==> Cell(csv.value, j, KoreanNameColumn) != newBirdName)
            ==> eng == ""
    ensures forall i :: && csv.Some? && newBirdName != ""
                        && 0 <= i < |csv.value.rows|
                        && Cell(csv.value, i, KoreanNameColumn) == newBirdName
                        && (forall j :: 0 <= j < i ==> Cell(csv.value, j, KoreanNameColumn) != newBirdName)
                        ==> eng == Cell(csv.value, i, EnglishNameColumn)
    ensures eng != "" ==>
              && csv.Some?
              && exists i :: && 0 <= i < |csv.value.rows|
                             && Cell(csv.value, i, KoreanNameColumn) == newBirdName
                             && Cell(csv.value, i, EnglishNameColumn) == eng
  {
    if csv.None? || newBirdName == "" then ""
    else
      match FirstRowNamed(csv.value, newBirdName, 0)
      case None => ""
      case Some(i) => Cell(csv.value, i, EnglishNameColumn)
  }

  /** The preview shown under a photo: the base the save would compose,
      with the original extension, or the prompt when the sanitised
      Korean name is empty. */
  function PreviewFilename(photo: Photo, newBirdName: string, eng: string): string
  {
    if SanitizeFilename(Some(newBirdName)) == "" then EnterNamePrompt
    else NewBase(photo.dateTime, newBirdName, eng) + Splitext(photo.originalFilename).1
  }

  /** The preview with the source's "N_A" guard. */
  function PreviewFilenameAsWritten(photo: Photo, newBirdName: string, eng: string): string
  {
    if SanitizeFilename(Some(newBirdName)) == "" then EnterNamePrompt
    else NewBaseAsWritten(photo.dateTime, newBirdName, eng) + Splitext(photo.originalFilename).1
  }

  /** The prompt is shown exactly when the sanitised Korean name is empty:
      a composed name has no space and the prompt has one. */
  lemma PreviewPrompt(photo: Photo, newBirdName: string, eng: string)
    ensures PreviewFilenameAsWritten(photo, newBirdName, eng) == EnterNamePrompt <==> SanitizeFilename(Some(newBirdName)) == ""
    ensures PreviewFilename(photo, newBirdName, eng) == EnterNamePrompt <==> SanitizeFilename(Some(newBirdName)) == ""
  {
    if SanitizeFilename(Some(newBirdName)) != "" {
      var ext := Splitext(photo.originalFilename).1;
      NewBaseAsWrittenIsSafe(photo.dateTime, newBirdName, eng);
      NotThePrompt(NewBaseAsWritten(photo.dateTime, newBirdName, eng), ext);
      NewBaseIsSafe(photo.dateTime, newBirdName, eng);
      NotThePrompt(NewBase(photo.dateTime, newBirdName, eng), ext);
    }
  }

  lemma NotThePrompt(base: string, ext: string)
    requires NoSpace(base)
    requires ext == "" || ext[0] == '.'
    ensures base + ext != EnterNamePrompt
  {
    assert IsSpace(EnterNamePrompt[3]) && '.' !in EnterNamePrompt;
  }

  /** With a name given, the preview is the first name the save tries for
      the photo (collision counter 0 of the copy loop's base name) when the
      save's English name is the same. */
  lemma PreviewIsFirstCandidate(photo: Photo, newBirdName: string, eng: string)
    requires SanitizeFilename(Some(newBirdName)) != ""
    ensures PreviewFilenameAsWritten(photo, newBirdName, eng)
            == CollisionName(NewBaseAsWritten(photo.dateTime, newBirdName, eng), Splitext(photo.originalFilename).1, 0)
  {
  }

  /** A "N/A" English name leaves the preview as if there were none. */
  lemma PreviewDropsNotAvailable(photo: Photo, newBirdName: string)
    ensures PreviewFilename(photo, newBirdName, NotAvailable) == PreviewFilename(photo, newBirdName, "")
  {
    NotAvailableDropped(photo.dateTime, newBirdName);
  }

  /** As written, a "N/A" English name shows up in the preview as "_NA". */
  lemma PreviewKeepsNotAvailableAsWritten(photo: Photo, newBirdName: string)
    requires SanitizeFilename(Some(newBirdName)) != ""
    ensures PreviewFilenameAsWritten(photo, newBirdName, NotAvailable)
            == ComposeBase(photo.dateTime, SanitizeFilename(Some(newBirdName)), SanitizedNotAvailable, true)
               + Splitext(photo.originalFilename).1
  {
    NotAvailableKeptAsWritten(photo.dateTime, newBirdName);
  }

  /** A reference-table English cell " N/A": the leading space keeps the
      table reader from taking it as missing, and sanitising strips it. */
  lemma PaddedNotAvailable()
    ensures SanitizeFilename(Some(" " + NotAvailable)) == SanitizedNotAvailable
  {
    var s: string := " " + NotAvailable;
    assert s[1..] == NotAvailable && IsSpace(s[0]);
    assert TrimLeft(s) == TrimLeft(NotAvailable);
    SentinelHasNoSpace();
    assert Strip(s) == Strip(NotAvailable) == NotAvailable;
    SanitizeNotAvailable();
  }

  /** As written, that cell shows up in the preview as "_NA". */
  lemma PreviewKeepsPaddedNotAvailableAsWritten(photo: Photo, newBirdName: string)
    requires SanitizeFilename(Some(newBirdName)) != ""
    ensures PreviewFilenameAsWritten(photo, newBirdName, " " + NotAvailable)
            == ComposeBase(photo.dateTime, SanitizeFilename(Some(newBirdName)), SanitizedNotAvailable, true)
               + Splitext(photo.originalFilename).1
  {
    PaddedNotAvailable();
  }

  /** With the corrected guard, that cell leaves the preview as if there were no English name. */
  lemma PreviewDropsPaddedNotAvailable(photo: Photo, newBirdName: string)
    ensures PreviewFilename(photo, newBirdName, " " + NotAvailable) == PreviewFilename(photo, newBirdName, "")
  {
    PaddedNotAvailable();
  }

  // =====================================================================
  // Species list
  // =====================================================================

  function NameKey(name: string): Key
  {
    (name, "")
  }

  /** `sorted(species_photo_map.keys())` */
  function SortedSpecies(groups: Dict<string, seq<Photo>>): seq<string>
  {
    SortBy(groups.keys, NameKey)
  }

  /** The species list holds each group key once, in ascending order. */
  lemma SortedSpeciesCorrect(groups: Dict<string, seq<Photo>>)
    requires groups.Valid()
    ensures var r := SortedSpecies(groups);
            && (forall i, j :: 0 <= i < j < |r| ==> !StrLt(r[j], r[i]))
            && multiset(r) == multiset(groups.keys)
            && (forall k :: k in r <==> k in groups.items)
  {
    var r := SortedSpecies(groups);
    SortByCorrect(groups.keys, NameKey);
    forall i, j | 0 <= i < j < |r| ensures !StrLt(r[j], r[i]) {
      assert !KeyLt(NameKey(r[j]), NameKey(r[i]));
    }
    forall k ensures k in r <==> k in groups.items {
      assert k in r <==> k in multiset(r);
      assert k in groups.keys <==> k in multiset(groups.keys);
    }
  }

  // =====================================================================
  // The loops of the editor, on the maps as values
  // =====================================================================

  /** One unfolding of the load. */
  lemma LoadedSnoc(files: seq<string>, nameOf: string -> string, dateOf: string -> Option<DateTime>, resolve: string -> BirdInfo)
    requires files != []
    ensures var init := files[..|files| - 1];
            var last := files[|files| - 1];
            && LoadedGroups(files, nameOf, dateOf) == Append(LoadedGroups(init, nameOf, dateOf), nameOf(last), Photo(last, dateOf(last)))
            && LoadedNames(files, nameOf) == Put(LoadedNames(init, nameOf), last, nameOf(last))
            && LoadedInfos(files, nameOf, resolve)
               == (if nameOf(last) in LoadedInfos(init, nameOf, resolve) then LoadedInfos(init, nameOf, resolve)
                   else LoadedInfos(init, nameOf, resolve)[nameOf(last) := resolve(nameOf(last))])
            && ResolveCalls(files, nameOf, resolve)
               == ResolveCalls(init, nameOf, resolve) + (if nameOf(last) in LoadedInfos(init, nameOf, resolve) then 0 else 1)
  {
    var ps := Photos(files, dateOf);
    assert ps[..|ps| - 1] == Photos(files[..|files| - 1], dateOf);
  }

  /** The body of the `for filename in all_files` loop of
      `load_photos_thread` (its lines on the three maps), for the naming,
      dating and resolver the loop uses; `resolved` tells whether the
      resolver was called. */
  method LoadFile(filename: string, nameOf: string -> string, dateOf: string -> Option<DateTime>, resolve: string -> BirdInfo,
                  groups: Dict<string, seq<Photo>>, names: Dict<string, string>, infos: map<string, BirdInfo>)
    returns (groups': Dict<string, seq<Photo>>, names': Dict<string, string>, infos': map<string, BirdInfo>, resolved: bool)
    requires groups.Valid() && names.Valid()
    ensures groups' == Append(groups, nameOf(filename), Photo(filename, dateOf(filename)))
    ensures names' == Put(names, filename, nameOf(filename))
    ensures resolved <==> nameOf(filename) !in infos
    ensures infos' == if resolved then infos[nameOf(filename) := resolve(nameOf(filename))] else infos
  {
    var initial := nameOf(filename);
    infos' := infos;
    resolved := initial !in infos;
    if resolved {
      infos' := infos[initial := resolve(initial)];
    }
    var photo := Photo(filename, dateOf(filename));
    groups' := AppendTo(groups, initial, photo);
    names' := Put(names, filename, initial);
  }

  /** The `for filename in all_files` loop of `load_photos_thread`,
      starting from the cleared maps; `lookups` counts the resolver calls. */
  method LoadFiles(files: seq<string>, nameOf: string -> string, dateOf: string -> Option<DateTime>, resolve: string -> BirdInfo)
    returns (groups: Dict<string, seq<Photo>>, names: Dict<string, string>, infos: map<string, BirdInfo>, ghost lookups: nat)
    ensures groups == LoadedGroups(files, nameOf, dateOf)
    ensures names == LoadedNames(files, nameOf)
    ensures infos == LoadedInfos(files, nameOf, resolve)
    ensures lookups == ResolveCalls(files, nameOf, resolve)
  {
    groups, names, infos, lookups := Empty(), Empty(), map[], 0;
    for i := 0 to |files|
      invariant groups == LoadedGroups(files[..i], nameOf, dateOf)
      invariant names == LoadedNames(files[..i], nameOf)
      invariant infos == LoadedInfos(files[..i], nameOf, resolve)
      invariant lookups == ResolveCalls(files[..i], nameOf, resolve)
    {
      assert files[..i + 1][..i] == files[..i];
      LoadedSnoc(files[..i + 1], nameOf, dateOf, resolve);
      var resolved: bool;
      groups, names, infos, resolved := LoadFile(files[i], nameOf, dateOf, resolve, groups, names, infos);
      if resolved {
        lookups := lookups + 1;
      }
    }
    assert files[..|files|] == files;
  }

  /** `for photo_info in photo_list: bird_name_map[photo_info['original_filename']] = new` */
  method RemapFiles(names: Dict<string, string>, photos: seq<Photo>, newName: string) returns (r: Dict<string, string>)
    requires names.Valid()
    ensures r == Retag(names, photos, newName)
  {
    r := names;
    for j := 0 to |photos|
      invariant r == Retag(names, photos[..j], newName)
    {
      assert photos[..j + 1][..j] == photos[..j];
      r := Put(r, photos[j].originalFilename, newName);
    }
    assert photos[..|photos|] == photos;
  }

  /** The `extend`-or-assign of the old group's list under the new name,
      then `del species_photo_map[old]`, which `found` says succeeded. */
  method MoveGroup(groups: Dict<string, seq<Photo>>, oldName: string, newName: string)
    returns (r: Dict<string, seq<Photo>>, found: bool)
    requires groups.Valid() && oldName != newName
    ensures r == RenameGroup(groups, oldName, newName)
    ensures found <==> oldName in groups.items
  {
    var photoList := Get(groups, oldName, []);
    if newName in groups.items {
      r := Put(groups, newName, groups.items[newName] + photoList);
    } else {
      assert [] + photoList == photoList;
      r := Put(groups, newName, photoList);
    }
    found := oldName in r.items;
    if found {
      r := Remove(r, oldName);
    }
  }
}
